/** What may reach the wire in a run of BusProtocol, and what does: the transfers of
    a batch are confined as far as admission confines them, and every outcome the
    specification of a batch allows happens in some run. */
module BusOutcomes {
  import opened Wrappers
  import opened Reservations
  import opened Batches
  import opened BusProtocol
  import opened BusInvariant
  import opened BusTheorems
  import opened BusHolding

  // ---- Every transfer of every run ----------------------------------------

  /** Whatever any thread puts on the bus has a buffer and at least one byte; a step of
      named kind is an operation its capability grants, within its length limit; and
      nothing before it in its batch was a transfer do_transfer refuses. */
  lemma WireConfined(msToTicks: nat -> nat, threads: nat, acts: seq<Action>, k: nat)
    requires k < |Run(msToTicks, threads, acts).log| && Run(msToTicks, threads, acts).log[k].Wire?
    ensures var w := Run(msToTicks, threads, acts).log[k];
      w.call.Batch? && w.i < |w.call.steps| && Clear(w.call.steps, w.i) &&
      var step := w.call.steps[w.i];
      step.kind != I2C_DELAY && step.hasBuffer && step.len >= 1 &&
      (step.kind < I2C_DELAY ==> Permitted(w.call.cap, step))
  {
    RunInv(msToTicks, threads, acts);
    var log := Run(msToTicks, threads, acts).log;
    assert EventOk(log, k);
    AdmitMeans(Some(log[k].call.cap), log[k].call.steps);
  }

  // ---- A run for every outcome ---------------------------------------------

  /** Thread 0 alone, in front of step `n` of the batch, its reservation in slot 0. */
  predicate Driving(s: State, call: Call, n: nat) {
    call.Batch? && n <= |call.steps| && |s.threads| > 0 &&
    s.threads[0].Stepping? && s.threads[0].call == call && s.threads[0].i == n && !s.threads[0].leased &&
    s.clock < s.slots[0].deadline && Holds(s.slots[0], call.cap.address) && s.slots[0].owner == 0 &&
    (forall i :: 1 <= i < MAX_RESERVATIONS ==> !s.slots[i].active) &&
    Wires(s.log, call) == Attempts(call.steps, n)
  }

  /** Thread 0 about to release and return `r`, having sent `wire`. */
  predicate Closing(s: State, call: Call, r: Status, wire: seq<Attempt>) {
    |s.threads| > 0 && s.threads[0].Releasing? && s.threads[0].call == call && s.threads[0].result == r &&
    Wires(s.log, call) == wire
  }

  /** Thread 0 has just been given slot 0 for its batch. */
  predicate Given(s: State, call: Call) {
    call.Batch? && |s.threads| > 0 && s.threads[0].LookingUp? && s.threads[0].call == call &&
    s.slots[0] == Slot(true, call.cap.address, 0, s.slots[0].deadline, false) && s.clock < s.slots[0].deadline &&
    (forall i :: 1 <= i < MAX_RESERVATIONS ==> !s.slots[i].active) && |s.log| == 1 && !s.log[0].Wire?
  }

  lemma GivenAtOnce(s: State, call: Call)
    requires call.Batch? && |s.threads| > 0 && s.threads[0] == Reserving(call) && s.log == []
    requires forall i :: 0 <= i < MAX_RESERVATIONS ==> !s.slots[i].active
    requires s.clock < Deadline(s.clock, s.msToTicks(call.cap.maxBatchMs))
    ensures Given(Apply(s, TryReserve(0)), call)
  {
    assert !AnyStale(s.slots, s.clock);
    assert Decide(s.slots, call.cap.address, 0) == Claimed(0);
  }

  lemma GivenDrives(s: State, call: Call)
    requires Given(s, call)
    ensures Driving(Apply(s, LookUp(0)), call, 0)
  {
    assert Find(s.slots, call.cap.address) == Some(0);
    assert s.log == [] + [s.log[0]];
    WiresOfAppend([], s.log[0], call);
  }

  lemma Starting(msToTicks: nat -> nat, threads: nat, cap: DeviceCap, steps: seq<Step>) returns (acts: seq<Action>)
    requires threads > 0 && Admit(Some(cap), steps) == Ok && Deadline(0, msToTicks(cap.maxBatchMs)) > 0
    ensures Driving(Run(msToTicks, threads, acts), Batch(0, 0, cap, steps), 0)
  {
    var s0: State := Start(msToTicks, threads);
    var call := Batch(0, 0, cap, steps);
    acts := [BeginBatch(0, Some(cap), steps), TryReserve(0), LookUp(0)];
    Three(s0, acts[0], acts[1], acts[2]);
    var s1 := Apply(s0, acts[0]);
    GivenAtOnce(s1, call);
    GivenDrives(Apply(s1, acts[1]), call);
  }

  /** Thread 0 between its passed check of step `n` and the wire. */
  predicate InFrontOfWire(s: State, call: Call, n: nat) {
    call.Batch? && n < |call.steps| && |s.threads| > 0 &&
    s.threads[0].InGap? && s.threads[0].call == call && s.threads[0].i == n && !s.threads[0].leased
  }

  /** The check in front of a step with a buffer passes, and leaves all as it was. */
  lemma Checking(s: State, call: Call, n: nat)
    requires Driving(s, call, n) && n < |call.steps|
    requires call.steps[n].kind != I2C_DELAY && call.steps[n].hasBuffer
    ensures var f := Apply(s, Advance(0));
      InFrontOfWire(f, call, n) && f.slots == s.slots && f.clock == s.clock && Wires(f.log, call) == Wires(s.log, call)
  {
    assert !AnyStale(s.slots, s.clock);
    assert Find(s.slots, call.cap.address) == Some(0);
    var f := Apply(s, Advance(0));
    WiresOfAppend(s.log, f.log[|s.log|], call);
  }

  /** The transfer is logged, and the thread goes on or gives up. */
  lemma Sending(s: State, call: Call, n: nat, accepted: bool)
    requires InFrontOfWire(s, call, n) && Sendable(call.steps[n])
    ensures var f := Apply(s, Transfer(0, accepted));
      f.slots == s.slots && f.clock == s.clock && |f.threads| > 0 &&
      Wires(f.log, call) == Wires(s.log, call) + [Attempt(n, accepted)] &&
      f.threads[0].call == call &&
      if accepted then f.threads[0].Stepping? && f.threads[0].i == n + 1 && !f.threads[0].leased
      else f.threads[0].Releasing? && f.threads[0].result == Eio
  {
    WiresOfAppend(s.log, Wire(call, n, accepted, s.threads[0].check), call);
  }

  /** A transfer without a length is refused, and nothing is logged. */
  lemma Refusing(s: State, call: Call, n: nat)
    requires InFrontOfWire(s, call, n) && !Sendable(call.steps[n])
    ensures var f := Apply(s, Transfer(0, false));
      f.slots == s.slots && f.clock == s.clock && |f.threads| > 0 && f.log == s.log &&
      f.threads[0].Releasing? && f.threads[0].call == call && f.threads[0].result == Einval
  {
  }

  lemma DriveStep(s: State, call: Call, n: nat) returns (acts: seq<Action>)
    requires Driving(s, call, n) && n < |call.steps| && Clear(call.steps, n + 1)
    ensures Driving(Exec(s, acts), call, n + 1)
  {
    if call.steps[n].kind == I2C_DELAY {
      acts := [Advance(0)];
      assert acts[1..] == [];
      assert Exec(s, acts) == Exec(Apply(s, Advance(0)), []);
    } else {
      acts := [ClockTo(s.clock), Advance(0), Transfer(0, true)];
      Three(s, acts[0], acts[1], acts[2]);
      assert Apply(s, ClockTo(s.clock)) == s;
      Checking(s, call, n);
      Sending(Apply(s, Advance(0)), call, n, true);
    }
  }

  lemma {:induction false} DriveTo(s: State, call: Call, n: nat, m: nat) returns (acts: seq<Action>)
    requires Driving(s, call, n) && n <= m <= |call.steps| && Clear(call.steps, m)
    ensures Driving(Exec(s, acts), call, m)
    decreases m - n
  {
    if n == m {
      acts := [];
    } else {
      var first := DriveStep(s, call, n);
      var rest := DriveTo(Exec(s, first), call, n + 1, m);
      ExecConcat(s, first, rest);
      acts := first + rest;
    }
  }

  /** The reservation runs out in front of step `i`. */
  lemma CloseLate(s: State, call: Call, i: nat)
    requires Driving(s, call, i) && i < |call.steps| && StepFails(call.steps[i], Etimedout)
    ensures Closing(Apply(Apply(s, ClockTo(s.slots[0].deadline)), Advance(0)), call, Etimedout, Attempts(call.steps, i))
  {
    var s1 := Apply(s, ClockTo(s.slots[0].deadline));
    assert Stale(s1.slots[0], s1.clock);
    assert !Owned(Sweep(s1).slots, call.cap.address, 0);
  }

  /** Step `i` has no buffer. */
  lemma CloseBufferless(s: State, call: Call, i: nat)
    requires Driving(s, call, i) && i < |call.steps| && call.steps[i].kind != I2C_DELAY && !call.steps[i].hasBuffer
    ensures Closing(Apply(s, Advance(0)), call, Einval, Attempts(call.steps, i))
  {
  }

  /** Step `i` passes its check and has no length. */
  lemma CloseEmpty(s: State, call: Call, i: nat)
    requires Driving(s, call, i) && i < |call.steps| && call.steps[i].kind != I2C_DELAY && call.steps[i].hasBuffer
    requires call.steps[i].len == 0
    ensures Closing(Apply(Apply(s, Advance(0)), Transfer(0, false)), call, Einval, Attempts(call.steps, i))
  {
    Checking(s, call, i);
    Refusing(Apply(s, Advance(0)), call, i);
  }

  /** Step `i` passes its check and fails on the bus. */
  lemma CloseUnacknowledged(s: State, call: Call, i: nat)
    requires Driving(s, call, i) && i < |call.steps| && call.steps[i].kind != I2C_DELAY && Sendable(call.steps[i])
    ensures Closing(Apply(Apply(s, Advance(0)), Transfer(0, false)), call, Eio,
      Attempts(call.steps, i) + [Attempt(i, false)])
  {
    Checking(s, call, i);
    Sending(Apply(s, Advance(0)), call, i, false);
  }

  /** The thread fails at step `i`, in any of the ways a step may fail. */
  lemma CloseFailed(s: State, call: Call, i: nat, r: Status) returns (acts: seq<Action>)
    requires Driving(s, call, i) && i < |call.steps| && StepFails(call.steps[i], r)
    ensures Closing(Exec(s, acts), call, r, Attempts(call.steps, i) + if r == Eio then [Attempt(i, false)] else [])
  {
    var stay := ClockTo(s.clock);
    assert Apply(s, stay) == s;
    if r == Etimedout {
      acts := [stay, ClockTo(s.slots[0].deadline), Advance(0)];
      CloseLate(s, call, i);
    } else if call.steps[i].hasBuffer {
      acts := [stay, Advance(0), Transfer(0, false)];
      if r == Eio {
        CloseUnacknowledged(s, call, i);
      } else {
        CloseEmpty(s, call, i);
      }
    } else {
      acts := [stay, stay, Advance(0)];
      CloseBufferless(s, call, i);
    }
    Three(s, acts[0], acts[1], acts[2]);
    assert Attempts(call.steps, i) + [] == Attempts(call.steps, i);
  }

  /** The batch ends in front of step `n`, or with it. */
  predicate EndsAt(steps: seq<Step>, n: nat, r: Status, wire: seq<Attempt>) {
    if r == Ok then n == |steps| && Clear(steps, n) && wire == Attempts(steps, n)
    else n < |steps| && StoppedAt(steps, n, r, wire)
  }

  lemma CloseAny(s: State, call: Call, n: nat, r: Status, wire: seq<Attempt>) returns (acts: seq<Action>)
    requires Driving(s, call, n) && EndsAt(call.steps, n, r, wire)
    ensures Closing(Exec(s, acts), call, r, wire)
  {
    if r == Ok {
      acts := [Advance(0)];
      assert acts[1..] == [];
      assert Exec(s, acts) == Exec(Apply(s, Advance(0)), []);
    } else {
      acts := CloseFailed(s, call, n, r);
    }
  }

  lemma Close(s: State, call: Call, r: Status, wire: seq<Attempt>)
    requires Closing(s, call, r, wire)
    ensures Closed(Exec(s, [Release(0)]).log, call, r, wire)
  {
    assert [Release(0)][1..] == [];
    var f := Apply(s, Release(0));
    assert Exec(s, [Release(0)]) == Exec(f, []) == f;
    assert f.log == s.log + [Finished(call, r)];
    WiresOfAppend(s.log, Finished(call, r), call);
  }

  /** The last thing logged is that the call returned `r`, having sent `wire`. */
  predicate Closed(log: seq<Event>, call: Call, r: Status, wire: seq<Attempt>) {
    |log| > 0 && log[|log| - 1] == Finished(call, r) && Wires(log, call) == wire
  }

  lemma DriveToEnd(s: State, call: Call, n: nat, r: Status, wire: seq<Attempt>) returns (acts: seq<Action>)
    requires Driving(s, call, 0) && EndsAt(call.steps, n, r, wire)
    ensures Closed(Exec(s, acts).log, call, r, wire)
  {
    var b := DriveTo(s, call, 0, n);
    var c := CloseAny(Exec(s, b), call, n, r, wire);
    ExecConcat(s, b, c);
    ExecConcat(s, b + c, [Release(0)]);
    Close(Exec(s, b + c), call, r, wire);
    acts := b + c + [Release(0)];
  }

  lemma OutcomeEnds(steps: seq<Step>, r: Status, wire: seq<Attempt>) returns (n: nat)
    requires Outcome(steps, r, wire)
    ensures EndsAt(steps, n, r, wire)
  {
    n := |steps|;
    if r != Ok {
      n :| 0 <= n < |steps| && StoppedAt(steps, n, r, wire);
    }
  }

  /** There is no slack in the specification of a batch: every outcome it allows is the
      outcome of some run, on any bus with a thread and a clock that ticks in the
      batch's time. */
  lemma Reachable(msToTicks: nat -> nat, threads: nat, cap: DeviceCap, steps: seq<Step>, r: Status, wire: seq<Attempt>)
    returns (acts: seq<Action>)
    requires threads > 0 && Deadline(0, msToTicks(cap.maxBatchMs)) > 0
    requires Admit(Some(cap), steps) == Ok && Outcome(steps, r, wire)
    ensures Closed(Run(msToTicks, threads, acts).log, Batch(0, 0, cap, steps), r, wire)
  {
    var a := Starting(msToTicks, threads, cap, steps);
    var n := OutcomeEnds(steps, r, wire);
    var b := DriveToEnd(Run(msToTicks, threads, a), Batch(0, 0, cap, steps), n, r, wire);
    ExecConcat(Start(msToTicks, threads), a, b);
    acts := a + b;
  }

  /** A run in which a batch of these steps returned `r` after sending `wire`. */
  ghost predicate Happens(msToTicks: nat -> nat, threads: nat, acts: seq<Action>, cap: DeviceCap, steps: seq<Step>,
                          r: Status, wire: seq<Attempt>) {
    var log := Run(msToTicks, threads, acts).log;
    exists k :: 0 <= k < |log| && log[k].Finished? && log[k].call.Batch? && log[k].call.cap == cap &&
      log[k].call.steps == steps && log[k].status == r && Wires(log, log[k].call) == wire
  }

  /** The specification is exact: except for calls that gave up waiting, a result and a
      sequence of attempts occur in some run if and only if it allows them. */
  lemma OutcomesExact(msToTicks: nat -> nat, threads: nat, cap: DeviceCap, steps: seq<Step>, r: Status,
                      wire: seq<Attempt>)
    requires threads > 0 && Deadline(0, msToTicks(cap.maxBatchMs)) > 0
    requires Admit(Some(cap), steps) == Ok && r != Ebusy && r != Etimedout
    ensures (exists acts :: Happens(msToTicks, threads, acts, cap, steps, r, wire)) <==> Outcome(steps, r, wire)
  {
    if acts :| Happens(msToTicks, threads, acts, cap, steps, r, wire) {
      var log := Run(msToTicks, threads, acts).log;
      var k :| 0 <= k < |log| && log[k].Finished? && log[k].call.Batch? && log[k].call.cap == cap &&
        log[k].call.steps == steps && log[k].status == r && Wires(log, log[k].call) == wire;
      FinishedBatch(msToTicks, threads, acts, k);
    }
    if Outcome(steps, r, wire) {
      var acts := Reachable(msToTicks, threads, cap, steps, r, wire);
      var log := Run(msToTicks, threads, acts).log;
      assert log[|log| - 1].status == r;
      assert Happens(msToTicks, threads, acts, cap, steps, r, wire);
    }
  }

  // ---- When a capability is exceeded on the wire ----------------------------

  /** Entry `k` puts a step of the batch on the bus that its capability does not allow. */
  predicate Forbidden(log: seq<Event>, k: nat, cap: DeviceCap, steps: seq<Step>) {
    k < |log| && log[k].Wire? && log[k].call.Batch? && log[k].call.cap == cap && log[k].call.steps == steps &&
    log[k].i < |steps| && !Permitted(cap, steps[log[k].i])
  }

  lemma {:induction false} WiresAreLogged(log: seq<Event>, call: Call, j: nat) returns (k: nat)
    requires j < |Wires(log, call)|
    ensures k < |log| && log[k].Wire? && log[k].call == call
    ensures Wires(log, call)[j] == Attempt(log[k].i, log[k].ok)
  {
    var n := |log| - 1;
    if j < |Wires(log[..n], call)| {
      k := WiresAreLogged(log[..n], call, j);
    } else {
      k := n;
    }
  }

  lemma ForbiddenIsExposed(msToTicks: nat -> nat, threads: nat, acts: seq<Action>, k: nat,
                           cap: DeviceCap, steps: seq<Step>)
    requires Forbidden(Run(msToTicks, threads, acts).log, k, cap, steps)
    ensures Exposed(cap, steps, Run(msToTicks, threads, acts).log[k].i)
  {
    WireConfined(msToTicks, threads, acts, k);
  }

  /** A capability can be exceeded on the wire, and exactly when: an admitted batch can
      put a step on the bus that its capability does not allow if and only if it has a
      step of unnamed kind outside the capability, with a buffer and a length, and no
      transfer before it that do_transfer refuses. */
  lemma ForbiddenTransferIff(msToTicks: nat -> nat, threads: nat, cap: DeviceCap, steps: seq<Step>)
    requires threads > 0 && Deadline(0, msToTicks(cap.maxBatchMs)) > 0 && Admit(Some(cap), steps) == Ok
    ensures (exists acts, k :: Forbidden(Run(msToTicks, threads, acts).log, k, cap, steps))
      <==> exists i :: Exposed(cap, steps, i)
  {
    if acts, k :| Forbidden(Run(msToTicks, threads, acts).log, k, cap, steps) {
      ForbiddenIsExposed(msToTicks, threads, acts, k, cap, steps);
    }
    if i :| Exposed(cap, steps, i) {
      var wire := ExposedOutcome(cap, steps, i);
      var acts := Reachable(msToTicks, threads, cap, steps, Eio, wire);
      var k := WiresAreLogged(Run(msToTicks, threads, acts).log, Batch(0, 0, cap, steps), |wire| - 1);
      assert Forbidden(Run(msToTicks, threads, acts).log, k, cap, steps);
    }
  }

  const WRITE_ONLY := DeviceCap(0x36, 2, 0, 8, 20, 0)
  const UNNAMED := [Step(3, 9, 0, true)]

  /** Such a batch: on a write-only device, nine bytes are read where eight are allowed. */
  lemma UnnamedKindReadsTheWire() returns (acts: seq<Action>, k: nat)
    ensures Admit(Some(WRITE_ONLY), UNNAMED) == Ok
    ensures var log := Run(x => x, 1, acts).log;
      k < |log| && log[k].Wire? && log[k].ok && log[k].call == Batch(0, 0, WRITE_ONLY, UNNAMED) && log[k].i == 0
    ensures UNNAMED[0].kind == 3 && !Granted(WRITE_ONLY, I2C_OP_READ) && UNNAMED[0].len > WRITE_ONLY.maxTransferLen
  {
    AdmitMeans(Some(WRITE_ONLY), UNNAMED);
    assert I2C_OP_WRITE & I2C_OP_READ == 0;
    var wire := Attempts(UNNAMED, 1);
    assert wire == [Attempt(0, true)];
    acts := Reachable(x => x, 1, WRITE_ONLY, UNNAMED, Ok, wire);
    k := WiresAreLogged(Run(x => x, 1, acts).log, Batch(0, 0, WRITE_ONLY, UNNAMED), 0);
  }
}

/** Concrete runs of the bus protocol: what the driver does not promise. */
module BusWitness {
  import opened Wrappers
  import opened Reservations
  import opened Batches
  import opened BusProtocol
  import opened BusTheorems
  import opened BusHolding

  const CAP := DeviceCap(0x36, 3, 0, 8, 20, 0)
  const STEPS := [Step(I2C_WRITE, 2, 0, true)]

  const B0 := Batch(0, 0, CAP, STEPS)
  const B1 := Batch(1, 1, CAP, STEPS)
  const C0 := Claim(0, B0, 0, 20)
  const C1 := Claim(1, B1, 20, 40)

  /** The table has one entry, in its first slot. */
  predicate OneSlot(s: State, slot: Slot, mark: Claim) {
    s.slots[0] == slot && s.marks[0] == mark && forall i :: 1 <= i < MAX_RESERVATIONS ==> !s.slots[i].active
  }

  lemma ThreadZeroEnters() returns (acts: seq<Action>)
    ensures var s := Run(x => x, 2, acts);
      s.threads == [LookingUp(B0, C0, 0), Idle] && s.log == [Entered(B0, C0)] &&
      OneSlot(s, Slot(true, 0x36, 0, 20, false), C0) &&
      s.clock == 0 && s.nextCall == 1 && s.nextClaim == 1 && s.msToTicks(20) == 20
  {
    AdmitMeans(Some(CAP), STEPS);
    var s0: State := Start(x => x, 2);
    acts := [ClockTo(0), BeginBatch(0, Some(CAP), STEPS), TryReserve(0)];
    Three(s0, acts[0], acts[1], acts[2]);
    var s1 := Apply(Apply(s0, acts[0]), acts[1]);
    assert s1.threads == [Reserving(B0), Idle];
    assert Decide(s1.slots, 0x36, 0) == Claimed(0);
  }

  lemma ThreadZeroPasses(s: State) returns (acts: seq<Action>)
    requires s.threads == [LookingUp(B0, C0, 0), Idle] && s.log == [Entered(B0, C0)] && s.clock == 0
    requires OneSlot(s, Slot(true, 0x36, 0, 20, false), C0)
    ensures var f := Exec(s, acts);
      f.threads == [InGap(B0, C0, 0, false, 0, 1), Idle] && f.log == [Entered(B0, C0), Passed(B0, C0, 0, 0)] &&
      f.clock == 20 && OneSlot(f, s.slots[0], C0) &&
      f.nextCall == s.nextCall && f.nextClaim == s.nextClaim && f.msToTicks == s.msToTicks
  {
    acts := [LookUp(0), Advance(0), ClockTo(20)];
    Three(s, acts[0], acts[1], acts[2]);
    assert Find(s.slots, 0x36) == Some(0);
    assert Apply(s, acts[0]).threads == [Stepping(B0, C0, 0, false, 0), Idle];
    assert !AnyStale(s.slots, 0);
  }

  lemma ThreadOneEnters(s: State) returns (acts: seq<Action>)
    requires s.threads == [InGap(B0, C0, 0, false, 0, 1), Idle] && s.clock == 20
    requires s.log == [Entered(B0, C0), Passed(B0, C0, 0, 0)]
    requires OneSlot(s, Slot(true, 0x36, 0, 20, false), C0)
    requires s.nextCall == 1 && s.nextClaim == 1 && s.msToTicks(20) == 20
    ensures var f := Exec(s, acts);
      f.threads == [Stepping(B0, C0, 0, false, 1), LookingUp(B1, C1, 2)] && f.clock == 20 &&
      f.log == [Entered(B0, C0), Passed(B0, C0, 0, 0), Entered(B1, C1), Wire(B0, 0, true, 1)] &&
      OneSlot(f, Slot(true, 0x36, 1, 40, false), C1)
  {
    AdmitMeans(Some(CAP), STEPS);
    acts := [BeginBatch(1, Some(CAP), STEPS), TryReserve(1), Transfer(0, true)];
    Three(s, acts[0], acts[1], acts[2]);
    var s1 := Apply(s, acts[0]);
    assert s1.threads == [InGap(B0, C0, 0, false, 0, 1), Reserving(B1)];
    assert Stale(s1.slots[0], 20);
    var s2 := Apply(s1, acts[1]);
    assert s2.log == s.log + [Entered(B1, C1)];
    assert s2.threads == [InGap(B0, C0, 0, false, 0, 1), LookingUp(B1, C1, 2)];
  }

  lemma ThreadOnePasses(s: State) returns (acts: seq<Action>)
    requires |s.threads| == 2 && s.threads[1] == LookingUp(B1, C1, 2) && s.clock == 20
    requires OneSlot(s, Slot(true, 0x36, 1, 40, false), C1)
    ensures Exec(s, acts).log == s.log + [Passed(B1, C1, 2, 20)]
  {
    acts := [LookUp(1), Advance(1), ClockTo(20)];
    Three(s, acts[0], acts[1], acts[2]);
    assert Find(s.slots, 0x36) == Some(0);
    assert Apply(s, acts[0]).threads[1] == Stepping(B1, C1, 2, false, 0);
    assert !AnyStale(s.slots, 20);
  }

  /** A batch is not atomic on the wire. Two batches on one device, at one tick per
      millisecond: thread 0 passes its check at tick 0 and is delayed; its
      reservation expires at tick 20; thread 1 enters; thread 0's transfer lands;
      only then does thread 1 pass its own check. */
  lemma StaleTransferRun() returns (acts: seq<Action>)
    ensures Run(x => x, 2, acts).log ==
      [Entered(B0, C0), Passed(B0, C0, 0, 0), Entered(B1, C1), Wire(B0, 0, true, 1), Passed(B1, C1, 2, 20)]
  {
    var s0: State := Start(x => x, 2);
    var a := ThreadZeroEnters();
    var s1 := Exec(s0, a);
    var b := ThreadZeroPasses(s1);
    var s2 := Exec(s1, b);
    var c := ThreadOneEnters(s2);
    var s3 := Exec(s2, c);
    var d := ThreadOnePasses(s3);
    ExecConcat(s0, a, b);
    ExecConcat(s0, a + b, c);
    ExecConcat(s0, a + b + c, d);
    acts := a + b + c + d;
  }

  // ---- Five addresses ----------------------------------------------------

  predicate Distinct(a: seq<Address>) {
    forall i, j :: 0 <= i < j < |a| ==> a[i] != a[j]
  }

  /** One thread holds one-tick leases on the first `k` addresses. */
  predicate Leased(s: State, a: seq<Address>, k: nat)
    requires k <= MAX_RESERVATIONS && k <= |a|
  {
    s.threads == [Idle] && s.clock == 0 && s.msToTicks(1) == 1 &&
    (forall i :: 0 <= i < k ==> s.slots[i].active && s.slots[i].address == a[i] && s.slots[i].deadline == 1) &&
    (forall i :: k <= i < MAX_RESERVATIONS ==> !s.slots[i].active)
  }

  function LeaseMoves(address: Address): seq<Action> {
    [ClockTo(0), BeginLease(0, Some(DeviceCap(address, 0, I2C_MAY_LEASE, 0, 0, 1)), 1), TryReserve(0)]
  }

  lemma OneMoreLease(s: State, a: seq<Address>, k: nat)
    requires k < |a| && Distinct(a) && k <= MAX_RESERVATIONS && Leased(s, a, k)
    ensures var f := Exec(s, LeaseMoves(a[k]));
      if k < MAX_RESERVATIONS then Leased(f, a, k + 1)
      else |f.log| > 0 && f.log[|f.log| - 1].Finished? && f.log[|f.log| - 1].status == Ebusy
  {
    var m := LeaseMoves(a[k]);
    Three(s, m[0], m[1], m[2]);
    var s1 := Apply(s, m[1]);
    assert Apply(s, m[0]) == s;
    assert s1.threads == [Reserving(Lease(s.nextCall, 0, m[1].dev.value, 1))];
    assert !AnyStale(s1.slots, 0);
    assert Find(s1.slots, a[k]).None?;
    if k < MAX_RESERVATIONS {
      assert !s1.slots[k].active;
      assert FindFree(s1.slots) == Some(k);
    }
  }

  lemma {:induction false} FillUp(a: seq<Address>, k: nat) returns (acts: seq<Action>)
    requires |a| == 5 && Distinct(a) && k <= 4
    ensures Over(acts, set x | x in a) && Leased(Run(x => x, 1, acts), a, k)
  {
    var s0: State := Start(x => x, 1);
    if k == 0 {
      acts := [];
    } else {
      var before := FillUp(a, k - 1);
      OneMoreLease(Exec(s0, before), a, k - 1);
      ExecConcat(s0, before, LeaseMoves(a[k - 1]));
      acts := before + LeaseMoves(a[k - 1]);
    }
  }

  /** The bound of four in NeverTableFull is exact: over any five devices some run
      fails with -EBUSY. */
  lemma FiveDevicesFillTheTable(a: seq<Address>) returns (acts: seq<Action>)
    requires |a| == 5 && Distinct(a)
    ensures Over(acts, set x | x in a)
    ensures var log := Run(x => x, 1, acts).log;
      |log| > 0 && log[|log| - 1].Finished? && log[|log| - 1].status == Ebusy
  {
    var s0: State := Start(x => x, 1);
    var before := FillUp(a, 4);
    OneMoreLease(Exec(s0, before), a, 4);
    ExecConcat(s0, before, LeaseMoves(a[4]));
    acts := before + LeaseMoves(a[4]);
  }
}

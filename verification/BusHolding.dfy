/** Who may hold a slot, for how long, how a claim ends, and who waits for it:
    the reservation side of the runs of BusProtocol. */
module BusHolding {
  import opened Wrappers
  import opened Reservations
  import opened Batches
  import opened BusProtocol
  import opened BusInvariant
  import opened BusTheorems

  // ---- Finished batches --------------------------------------------------

  lemma {:induction false} WiresSettle(log: seq<Event>, call: Call, k: nat)
    requires k <= |log| && forall m :: k <= m < |log| ==> !Concerns(log[m], call)
    ensures Wires(log, call) == Wires(log[..k], call)
    decreases |log|
  {
    if k < |log| {
      var shorter := log[..|log| - 1];
      WiresSettle(shorter, call, k);
      assert shorter[..k] == log[..k];
    } else {
      assert log[..k] == log;
    }
  }

  /** Once a batch has returned, everything it ever put on the wire is on record,
      and it is what the specification of its result says; unless it never got
      the reservation, and then it put nothing. */
  lemma FinishedBatch(msToTicks: nat -> nat, threads: nat, acts: seq<Action>, k: nat)
    requires var log := Run(msToTicks, threads, acts).log; k < |log| && log[k].Finished? && log[k].call.Batch?
    ensures var log := Run(msToTicks, threads, acts).log; var (call, r) := (log[k].call, log[k].status);
      Admit(Some(call.cap), call.steps) == Ok &&
      (Outcome(call.steps, r, Wires(log, call)) ||
       ((r == Ebusy || r == Etimedout) && Wires(log, call) == []))
  {
    RunInv(msToTicks, threads, acts);
    var log := Run(msToTicks, threads, acts).log;
    var call := log[k].call;
    assert EventOk(log, k) && Settled(log);
    WiresSettle(log, call, k + 1);
    assert log[..k + 1] == log[..k] + [log[k]];
    WiresOfAppend(log[..k], log[k], call);
    if forall j :: 0 <= j < k ==> !Concerns(log[..k][j], call) {
      NoWiresUnlessConcerned(log[..k], call);
    }
  }

  // ---- Who holds what ----------------------------------------------------

  /** Every active slot that is not a lease belongs to a thread that is inside
      i2c_transact on that very address. In particular a thread outside a batch
      holds leases only: whatever a batch claimed is gone when it returns. */
  lemma BatchSlotsAreInUse(msToTicks: nat -> nat, threads: nat, acts: seq<Action>, i: nat)
    requires i < MAX_RESERVATIONS && Run(msToTicks, threads, acts).slots[i].active
    ensures var s := Run(msToTicks, threads, acts); var slot := s.slots[i];
      slot.owner < |s.threads| && (!slot.isLease ==>
        InBatch(s.threads[slot.owner]) && s.threads[slot.owner].call.Batch? &&
        s.threads[slot.owner].call.cap.address == slot.address &&
        s.threads[slot.owner].claim == s.marks[i])
  {
    RunInv(msToTicks, threads, acts);
    var s := Run(msToTicks, threads, acts);
    ExecExtends(Start(msToTicks, threads), acts);
    assert SlotOk(s, i) && OwnOk(s, i) && PcOk(s, s.slots[i].owner);
  }

  /** A lease request that returns 0 leaves the caller holding a lease on the
      device; one it already held keeps its deadline. */
  lemma AcquiredIsLease(s: State, t: nat)
    requires Inv(s) && t < |s.threads| && s.threads[t].Reserving? && s.threads[t].call.Lease?
    requires var f := Apply(s, TryReserve(t));
      |f.log| > |s.log| && f.log[|f.log| - 1] == Finished(s.threads[t].call, Ok)
    ensures var call := s.threads[t].call; var f := Apply(s, TryReserve(t));
      exists i :: 0 <= i < MAX_RESERVATIONS && f.slots[i].active && f.slots[i].isLease &&
        f.slots[i].owner == t && f.slots[i].address == call.cap.address &&
        (f.slots[i] == s.slots[i] || f.slots[i].deadline == Deadline(s.clock, s.msToTicks(call.holdMs)))
  {
    var call, s1, f := s.threads[t].call, Sweep(s), Apply(s, TryReserve(t));
    SweepInv(s);
    assert PcOk(s, t);
    match Decide(s1.slots, call.cap.address, t)
    case Claimed(i) => assert f.slots[i].active;
    case Reentrant(i) =>
      OutsideOnlyLeases(s1, t);
      assert f.slots[i] == s.slots[i];
    case Blocked(i) =>
    case Full =>
  }

  // ---- How a claim ends --------------------------------------------------

  /** The one move by which an owner gives up claim `c` before its deadline: the
      end of the batch that made it, or the release of a lease. */
  predicate GivesUp(s: State, a: Action, c: Claim) {
    var t := c.call.thread;
    t < |s.threads| &&
    if c.call.Batch? then
      a == Release(t) && s.threads[t].Releasing? && s.threads[t].claim == c
    else
      a.DropLease? && a.t == t && s.threads[t].Idle? && a.dev.Some? && a.dev.value.address == c.call.cap.address
  }

  lemma DropKeeps(s: State, address: Address, t: nat, i: nat, c: Claim)
    requires i < MAX_RESERVATIONS && Live(s, i, c) && SlotOk(s, i)
    requires !(c.call.thread == t && c.call.cap.address == address)
    ensures Live(Drop(s, address, t), i, c)
  {
  }

  lemma ReserveKeeps(s: State, t: nat, call: Call, i: nat, c: Claim)
    requires t < |s.threads| && i < MAX_RESERVATIONS && Live(s, i, c) && SlotOk(s, i) && s.clock < c.deadline
    ensures Live(Reserve(s, t, call), i, c)
  {
    var s1 := Sweep(s);
    assert Live(s1, i, c);
    match Decide(s1.slots, call.cap.address, t)
    case Claimed(j) => assert j != i;
    case _ =>
  }

  lemma CheckKeeps(s: State, t: nat, i: nat, c: Claim)
    requires t < |s.threads| && s.threads[t].Stepping? && s.threads[t].call.Batch?
    requires i < MAX_RESERVATIONS && Live(s, i, c) && SlotOk(s, i) && s.clock < c.deadline
    ensures Live(Check(s, t, s.threads[t]), i, c)
  {
    assert Live(Sweep(s), i, c);
  }

  /** A live claim survives every move of every thread, except that its deadline
      may be reached or its owner may give it up. A batch on a leased device is
      no exception: it never releases the lease. */
  lemma ClaimSurvives(s: State, a: Action, i: nat, c: Claim)
    requires Inv(s) && i < MAX_RESERVATIONS && Live(s, i, c)
    requires s.clock < c.deadline && !GivesUp(s, a, c)
    ensures Live(Apply(s, a), i, c)
  {
    assert SlotOk(s, i) && OwnOk(s, i);
    if !a.ClockTo? && a.t < |s.threads| {
      var pc := s.threads[a.t];
      assert PcOk(s, a.t);
      match a
      case TryReserve(t) => if pc.Reserving? { ReserveKeeps(s, t, pc.call, i, c); }
      case Advance(t) => if pc.Stepping? && pc.call.Batch? { CheckKeeps(s, t, i, c); }
      case Release(t) => if pc.Releasing? { DropKeeps(s, pc.call.cap.address, t, i, c); }
      case DropLease(t, dev) => if pc.Idle? && dev.Some? {
        if c.call.Batch? { assert c.call.thread != t; }
        DropKeeps(s, dev.value.address, t, i, c);
      }
      case _ =>
    }
  }

  /** A lease lasts through any run in which its owner does not release it, until
      the clock reaches its deadline; its slot never changes on the way. */
  lemma {:induction false} LeaseLasts(s: State, acts: seq<Action>, i: nat, c: Claim)
    requires Inv(s) && i < MAX_RESERVATIONS && Live(s, i, c) && c.call.Lease?
    requires forall k :: 0 <= k < |acts| && acts[k].DropLease? && acts[k].t == c.call.thread ==>
      acts[k].dev.None? || acts[k].dev.value.address != c.call.cap.address
    ensures var f := Exec(s, acts);
      f.clock >= c.deadline || (Live(f, i, c) && f.slots[i] == s.slots[i])
    decreases |acts|
  {
    assert SlotOk(s, i);
    if acts != [] && s.clock < c.deadline {
      var n := Apply(s, acts[0]);
      ClaimSurvives(s, acts[0], i, c);
      ApplyInv(s, acts[0]);
      assert SlotOk(n, i);
      LeaseLasts(n, acts[1..], i, c);
    } else {
      ExecExtends(s, acts);
    }
  }

  // ---- How long a claim may hold the device -------------------------------

  ghost predicate Monotone(f: nat -> nat) {
    forall a, b :: a <= b ==> f(a) <= f(b)
  }

  /** The longest hold a call may be granted: its capability's ceiling, and the term
      asked for if that ceiling is 0. */
  function Ceiling(call: Call): nat {
    if call.Batch? then call.cap.maxBatchMs else if call.cap.maxLeaseMs > 0 then call.cap.maxLeaseMs else call.holdMs
  }

  /** Bounded hold: while a slot is active it shows exactly what its claim was
      granted, and the deadline is at most the ceiling after the claim. */
  lemma BoundedHold(msToTicks: nat -> nat, threads: nat, acts: seq<Action>, i: nat)
    requires Monotone(msToTicks)
    requires i < MAX_RESERVATIONS && Run(msToTicks, threads, acts).slots[i].active
    ensures var s := Run(msToTicks, threads, acts); var c := s.marks[i];
      s.slots[i].deadline == c.deadline <= c.since + msToTicks(Ceiling(c.call)) && c.since <= s.clock
  {
    RunInv(msToTicks, threads, acts);
    var s := Run(msToTicks, threads, acts);
    SameTicks(Start(msToTicks, threads), acts);
    assert SlotOk(s, i);
  }

  lemma ApplyTicks(s: State, a: Action)
    ensures Apply(s, a).msToTicks == s.msToTicks
  {
  }

  lemma {:induction false} SameTicks(s: State, acts: seq<Action>)
    ensures Exec(s, acts).msToTicks == s.msToTicks
    decreases |acts|
  {
    if acts != [] {
      ApplyTicks(s, acts[0]);
      SameTicks(Apply(s, acts[0]), acts[1..]);
    }
  }

  /** From the deadline on, a claim blocks nobody: a reserve that ends up waiting
      waits for an unexpired claim of another thread. */
  lemma ExpiredBlocksNobody(s: State, t: nat)
    requires Inv(s) && t < |s.threads| && s.threads[t].Reserving?
    ensures var pc := Apply(s, TryReserve(t)).threads[t];
      pc.Snapped? ==>
        s.clock < pc.blocker.deadline && pc.blocker.call.thread != t &&
        pc.blocker.call.cap.address == s.threads[t].call.cap.address
  {
    SweepInv(s);
    var s1 := Sweep(s);
    assert forall i :: 0 <= i < MAX_RESERVATIONS ==> SlotOk(s1, i) && !Stale(s1.slots[i], s.clock);
  }

  /** A check passes if and only if the thread holds the address by an unexpired
      claim; expired claims, its own included, are gone from the table afterwards. */
  lemma CheckPassesIff(s: State, t: nat)
    requires Inv(s) && t < |s.threads| && s.threads[t].Stepping? && s.threads[t].call.Batch?
    requires var pc := s.threads[t];
      pc.i < |pc.call.steps| && pc.call.steps[pc.i].kind != I2C_DELAY && pc.call.steps[pc.i].hasBuffer
    ensures var f := Apply(s, Advance(t)); var address := s.threads[t].call.cap.address;
      (f.threads[t].InGap? <==>
        exists i :: 0 <= i < MAX_RESERVATIONS && Holds(s.slots[i], address) && s.slots[i].owner == t &&
          s.clock < s.slots[i].deadline) &&
      forall i :: 0 <= i < MAX_RESERVATIONS && f.slots[i].active ==>
        f.slots[i] == s.slots[i] && f.clock < f.slots[i].deadline
  {
    SweepInv(s);
    OwnedMeans(Sweep(s).slots, s.threads[t].call.cap.address, t);
    SweptIsUnexpired(s);
  }

  lemma SweptIsUnexpired(s: State)
    ensures forall i :: 0 <= i < MAX_RESERVATIONS ==>
      Sweep(s).slots[i] == if Stale(s.slots[i], s.clock) then s.slots[i].(active := false) else s.slots[i]
  {
  }

  // ---- Waiting -----------------------------------------------------------

  /** No wake-up is lost: a thread asleep, or about to sleep because the word still
      equals its snapshot, is blocked by the very claim it saw, which is still
      live, provided the word was bumped less often than it can count. */
  lemma SleeperIsBlocked(msToTicks: nat -> nat, threads: nat, acts: seq<Action>, t: nat)
    requires var s := Run(msToTicks, threads, acts);
      t < |s.threads| && Waiting(s.threads[t]) && s.gen == s.threads[t].word &&
      s.bumps - s.threads[t].bumpsSeen < TWO_32
    ensures var s := Run(msToTicks, threads, acts); var pc := s.threads[t];
      pc.slot < MAX_RESERVATIONS && Live(s, pc.slot, pc.blocker) &&
      s.slots[pc.slot].owner != t && s.slots[pc.slot].address == pc.call.cap.address
  {
    RunInv(msToTicks, threads, acts);
    var s := Run(msToTicks, threads, acts);
    assert PcOk(s, t);
    assert SlotOk(s, s.threads[t].slot);
    SameResidue(s.bumps, s.threads[t].bumpsSeen);
  }

  lemma SameResidue(a: nat, b: nat)
    requires b <= a && a - b < TWO_32 && a % TWO_32 == b % TWO_32
    ensures a == b
  {
  }

  /** A thread that is asleep sleeps on the current word, in every run. */
  lemma AsleepOnCurrentWord(msToTicks: nat -> nat, threads: nat, acts: seq<Action>, t: nat)
    requires var s := Run(msToTicks, threads, acts); t < |s.threads| && s.threads[t].Asleep?
    ensures var s := Run(msToTicks, threads, acts);
      s.gen == s.threads[t].word && (s.bumps - s.threads[t].bumpsSeen) % TWO_32 == 0
  {
    RunInv(msToTicks, threads, acts);
    assert PcOk(Run(msToTicks, threads, acts), t);
  }

  // ---- The table never overflows ------------------------------------------

  /** All capabilities used are for devices in `addresses`. */
  predicate Over(acts: seq<Action>, addresses: set<Address>) {
    forall k :: 0 <= k < |acts| ==>
      match acts[k]
      case BeginBatch(_, dev, _) => dev.Some? ==> dev.value.address in addresses
      case BeginLease(_, dev, _) => dev.Some? ==> dev.value.address in addresses
      case _ => true
  }

  predicate Confined(s: State, addresses: set<Address>) {
    (forall i :: 0 <= i < MAX_RESERVATIONS && s.slots[i].active ==> s.slots[i].address in addresses) &&
    (forall t :: 0 <= t < |s.threads| && !s.threads[t].Idle? ==> s.threads[t].call.cap.address in addresses) &&
    (forall k :: 0 <= k < |s.log| && s.log[k].Finished? ==> s.log[k].status != Ebusy)
  }

  lemma FourDistinct(a: seq<Address>, x: Address, addresses: set<Address>)
    requires |a| == 4 && forall i, j :: 0 <= i < j < 4 ==> a[i] != a[j]
    requires forall i :: 0 <= i < 4 ==> a[i] in addresses && a[i] != x
    requires x in addresses
    ensures |addresses| >= 5
  {
    var five := {a[0], a[1], a[2], a[3], x};
    assert five <= addresses;
    assert |addresses| == |five| + |addresses - five|;
  }

  /** A swept table with room for all addresses is not full for any of them. */
  lemma NotFull(slots: seq<Slot>, address: Address, me: nat, addresses: set<Address>)
    requires |slots| == MAX_RESERVATIONS && Unambiguous(slots) && |addresses| <= MAX_RESERVATIONS
    requires address in addresses
    requires forall i :: 0 <= i < MAX_RESERVATIONS && slots[i].active ==> slots[i].address in addresses
    ensures Decide(slots, address, me) != Full
  {
    if Decide(slots, address, me) == Full {
      var a := [slots[0].address, slots[1].address, slots[2].address, slots[3].address];
      FourDistinct(a, address, addresses);
    }
  }

  lemma EnterConfined(s: State, t: nat, call: Call, claim: Claim, addresses: set<Address>)
    requires Confined(s, addresses) && t < |s.threads| && call.cap.address in addresses
    ensures Confined(Enter(s, t, call, claim), addresses)
  {
  }

  lemma SweepConfined(s: State, addresses: set<Address>)
    requires Confined(s, addresses)
    ensures Confined(Sweep(s), addresses)
  {
  }

  lemma ClaimingConfined(s: State, t: nat, call: Call, i: nat, addresses: set<Address>)
    requires Confined(s, addresses) && t < |s.threads| && call.cap.address in addresses && i < MAX_RESERVATIONS
    ensures Confined(Claiming(s, t, call, i), addresses)
  {
    var claim := Claim(s.nextClaim, call, s.clock, Deadline(s.clock, s.msToTicks(HoldMs(call))));
    var slot := Slot(true, call.cap.address, t, claim.deadline, call.Lease?);
    EnterConfined(s.(slots := s.slots[i := slot], marks := s.marks[i := claim], nextClaim := s.nextClaim + 1),
                  t, call, claim, addresses);
  }

  lemma ReserveConfined(s: State, t: nat, addresses: set<Address>)
    requires Inv(s) && Confined(s, addresses) && |addresses| <= MAX_RESERVATIONS
    requires t < |s.threads| && s.threads[t].Reserving?
    ensures Confined(Reserve(s, t, s.threads[t].call), addresses)
  {
    SweepInv(s);
    SweepConfined(s, addresses);
    var s1, call := Sweep(s), s.threads[t].call;
    NotFull(s1.slots, call.cap.address, t, addresses);
    match Decide(s1.slots, call.cap.address, t)
    case Claimed(i) => ClaimingConfined(s1, t, call, i, addresses);
    case Reentrant(i) => EnterConfined(s1, t, call, s1.marks[i], addresses);
    case Blocked(i) =>
  }

  lemma LeaveConfined(s: State, t: nat, result: Status, addresses: set<Address>)
    requires Confined(s, addresses) && t < |s.threads| && (s.threads[t].Stepping? || s.threads[t].InGap?)
    requires result != Ebusy
    ensures Confined(Leave(s, t, s.threads[t], result), addresses)
  {
  }

  lemma CheckConfined(s: State, t: nat, addresses: set<Address>)
    requires Confined(s, addresses) && t < |s.threads| && s.threads[t].Stepping? && s.threads[t].call.Batch?
    ensures Confined(Check(s, t, s.threads[t]), addresses)
  {
    var pc := s.threads[t];
    var s1 := Sweep(s);
    assert Confined(s1, addresses) && s1.threads[t] == pc;
    LeaveConfined(s, t, Ok, addresses);
    LeaveConfined(s, t, Einval, addresses);
    LeaveConfined(s1, t, Etimedout, addresses);
  }

  lemma PutConfined(s: State, t: nat, accepted: bool, addresses: set<Address>)
    requires Confined(s, addresses) && t < |s.threads| && s.threads[t].InGap? && s.threads[t].call.Batch?
    requires s.threads[t].i < |s.threads[t].call.steps|
    ensures Confined(Put(s, t, s.threads[t], accepted), addresses)
  {
    var pc := s.threads[t];
    var s1 := Log(s, Wire(pc.call, pc.i, accepted, pc.check));
    assert Confined(s1, addresses);
    LeaveConfined(s, t, Einval, addresses);
    LeaveConfined(s1, t, Eio, addresses);
  }

  lemma ReleaseConfined(s: State, t: nat, addresses: set<Address>)
    requires Inv(s) && Confined(s, addresses) && t < |s.threads| && s.threads[t].Releasing?
    ensures Confined(Apply(s, Release(t)), addresses)
  {
    assert PcOk(s, t);
  }

  lemma {:induction false} ExecConfined(s: State, acts: seq<Action>, addresses: set<Address>)
    requires Inv(s) && Confined(s, addresses) && Over(acts, addresses) && |addresses| <= MAX_RESERVATIONS
    ensures Confined(Exec(s, acts), addresses)
    decreases |acts|
  {
    if acts != [] {
      var a := acts[0];
      ApplyInv(s, a);
      if !a.ClockTo? && a.t < |s.threads| {
        var pc := s.threads[a.t];
        match a
        case TryReserve(t) => if pc.Reserving? { ReserveConfined(s, t, addresses); }
        case Advance(t) => if pc.Stepping? && pc.call.Batch? { CheckConfined(s, t, addresses); }
        case Transfer(t, accepted) =>
          if pc.InGap? && pc.call.Batch? && pc.i < |pc.call.steps| { PutConfined(s, t, accepted, addresses); }
        case Release(t) => if pc.Releasing? { ReleaseConfined(s, t, addresses); }
        case _ =>
      }
      ExecConfined(Apply(s, a), acts[1..], addresses);
    }
  }

  /** With at most four device addresses no call ever fails with -EBUSY. */
  lemma NeverTableFull(msToTicks: nat -> nat, threads: nat, acts: seq<Action>, addresses: set<Address>, k: nat)
    requires Over(acts, addresses) && |addresses| <= MAX_RESERVATIONS
    requires k < |Run(msToTicks, threads, acts).log| && Run(msToTicks, threads, acts).log[k].Finished?
    ensures Run(msToTicks, threads, acts).log[k].status != Ebusy
  {
    StartInv(msToTicks, threads);
    ExecConfined(Start(msToTicks, threads), acts, addresses);
  }
}

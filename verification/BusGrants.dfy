/** Whoever is granted the device gets it for the whole time: claims, leases and
    releases in the runs of BusProtocol, from request to end. */
module BusGrants {
  import opened Wrappers
  import opened Reservations
  import opened Batches
  import opened BusProtocol
  import opened BusInvariant
  import opened BusTheorems
  import opened BusHolding

  // ---- Claims ------------------------------------------------------------

  /** Claim `c` ends when its capability's batch time, or the lease's term, is over, and
      not before, as long as the tick counter does not wrap. */
  predicate FullTerm(c: Claim, msToTicks: nat -> nat) {
    var term := match c.call
      case Batch(_, _, cap, _) => msToTicks(cap.maxBatchMs)
      case Lease(_, _, _, holdMs) => msToTicks(holdMs);
    c.since + term < TWO_64 ==> c.deadline == c.since + term
  }

  /** In every run an active slot shows a claim granted in full. */
  lemma SlotsGrantedInFull(msToTicks: nat -> nat, threads: nat, acts: seq<Action>, i: nat)
    requires i < MAX_RESERVATIONS && Run(msToTicks, threads, acts).slots[i].active
    ensures var s := Run(msToTicks, threads, acts); var c := s.marks[i];
      FullTerm(c, msToTicks) && s.slots[i] == Slot(true, c.call.cap.address, c.call.thread, c.deadline, c.call.Lease?)
  {
    RunInv(msToTicks, threads, acts);
    SameTicks(Start(msToTicks, threads), acts);
    assert SlotOk(Run(msToTicks, threads, acts), i);
  }

  /** A slot free for the taking: never used, let go, or expired. */
  predicate Available(s: State, i: nat)
    requires i < MAX_RESERVATIONS
  {
    !s.slots[i].active || s.clock >= s.slots[i].deadline
  }

  /** An unexpired claim on the address, whoever's. */
  ghost predicate Taken(s: State, address: Address) {
    exists i :: 0 <= i < MAX_RESERVATIONS && Holds(s.slots[i], address) && !Available(s, i)
  }

  /** Slot `i` carries the claim just made for `call`, from this very tick. */
  predicate ClaimedNow(s: State, f: State, i: nat, call: Call)
    requires i < MAX_RESERVATIONS
  {
    f.slots[i].active && f.marks[i].id == s.nextClaim && f.marks[i].call == call && f.marks[i].since == s.clock
  }

  lemma ClaimingIsNow(s: State, t: nat, call: Call, i: nat)
    requires t < |s.threads| && i < MAX_RESERVATIONS
    ensures ClaimedNow(s, Claiming(s, t, call, i), i, call) && Claiming(s, t, call, i).nextClaim == s.nextClaim + 1
  {
  }

  /** A reserve makes a claim if and only if nobody has the address unexpired and some
      slot is available; and then the claim starts now. */
  lemma ClaimsIff(s: State, t: nat)
    requires Inv(s) && t < |s.threads| && s.threads[t].Reserving?
    ensures var f, call := Apply(s, TryReserve(t)), s.threads[t].call;
      (f.nextClaim > s.nextClaim <==>
        !Taken(s, call.cap.address) && exists i :: 0 <= i < MAX_RESERVATIONS && Available(s, i)) &&
      (f.nextClaim > s.nextClaim ==> exists i :: 0 <= i < MAX_RESERVATIONS && ClaimedNow(s, f, i, call))
  {
    var s1, call := Sweep(s), s.threads[t].call;
    SweptIsUnexpired(s);
    assert forall i :: 0 <= i < MAX_RESERVATIONS ==> (s1.slots[i].active <==> !Available(s, i));
    assert forall i :: 0 <= i < MAX_RESERVATIONS ==>
      (Holds(s1.slots[i], call.cap.address) <==> Holds(s.slots[i], call.cap.address) && !Available(s, i));
    match Decide(s1.slots, call.cap.address, t)
    case Claimed(i) =>
      ClaimingIsNow(s1, t, call, i);
      assert ClaimedNow(s, Apply(s, TryReserve(t)), i, call);
    case _ =>
  }

  // ---- A batch has its time ----------------------------------------------

  /** Inside a batch the claim is one granted in full, and before its deadline it is in
      the table. */
  ghost predicate HoldsClaim(s: State, t: nat)
    requires t < |s.threads|
  {
    InBatch(s.threads[t]) ==>
      var c := s.threads[t].claim;
      FullTerm(c, s.msToTicks) &&
      (s.clock < c.deadline ==> exists i :: 0 <= i < MAX_RESERVATIONS && Live(s, i, c))
  }

  ghost predicate AllHold(s: State) {
    forall t :: 0 <= t < |s.threads| ==> HoldsClaim(s, t)
  }

  lemma EnterHolds(s: State, t: nat, call: Call, i: nat)
    requires t < |s.threads| && i < MAX_RESERVATIONS && s.slots[i].active && FullTerm(s.marks[i], s.msToTicks)
    ensures HoldsClaim(Enter(s, t, call, s.marks[i]), t)
  {
    assert Live(Enter(s, t, call, s.marks[i]), i, s.marks[i]);
  }

  lemma ReserveHolds(s: State, t: nat)
    requires Inv(s) && t < |s.threads| && s.threads[t].Reserving?
    ensures HoldsClaim(Apply(s, TryReserve(t)), t)
  {
    var s1, call := Sweep(s), s.threads[t].call;
    SweepInv(s);
    match Decide(s1.slots, call.cap.address, t)
    case Claimed(i) =>
      var claim := Claim(s1.nextClaim, call, s1.clock, Deadline(s1.clock, s1.msToTicks(HoldMs(call))));
      var slot := Slot(true, call.cap.address, t, claim.deadline, call.Lease?);
      EnterHolds(s1.(slots := s1.slots[i := slot], marks := s1.marks[i := claim], nextClaim := s1.nextClaim + 1),
                 t, call, i);
    case Reentrant(i) =>
      assert SlotOk(s1, i);
      EnterHolds(s1, t, call, i);
    case _ =>
  }

  /** Thread `t` goes from `s` to `f` without a move of its own. */
  predicate Passive(s: State, f: State, t: nat)
    requires t < |s.threads|
  {
    t < |f.threads| &&
    (f.threads[t] == s.threads[t] || (s.threads[t].Asleep? && f.threads[t] == Reserving(s.threads[t].call)))
  }

  lemma ReservePassive(s: State, u: nat, call: Call, t: nat)
    requires u < |s.threads| && t < |s.threads| && u != t
    ensures Passive(s, Reserve(s, u, call), t)
  {
    assert Passive(s, Sweep(s), t);
  }

  lemma CheckPassive(s: State, u: nat, t: nat)
    requires u < |s.threads| && t < |s.threads| && u != t && s.threads[u].Stepping? && s.threads[u].call.Batch?
    ensures Passive(s, Check(s, u, s.threads[u]), t)
  {
    assert Passive(s, Sweep(s), t);
  }

  lemma DropPassive(s: State, address: Address, u: nat, t: nat)
    requires t < |s.threads|
    ensures Passive(s, Drop(s, address, u), t)
  {
  }

  lemma OthersPassive(s: State, a: Action, t: nat)
    requires t < |s.threads| && (a.ClockTo? || a.t != t)
    ensures Passive(s, Apply(s, a), t)
  {
    if !a.ClockTo? && a.t < |s.threads| {
      var pc := s.threads[a.t];
      match a
      case TryReserve(u) => if pc.Reserving? { ReservePassive(s, u, pc.call, t); }
      case Advance(u) => if pc.Stepping? && pc.call.Batch? { CheckPassive(s, u, t); }
      case Release(u) => if pc.Releasing? { DropPassive(s, pc.call.cap.address, u, t); }
      case DropLease(u, dev) => if dev.Some? { DropPassive(s, dev.value.address, u, t); }
      case _ =>
    }
  }

  /** A thread that is in a batch after a move of its own other than TryReserve was in it
      before, with the same claim. */
  lemma OwnMoveStays(s: State, a: Action, t: nat)
    requires t < |s.threads| && !a.ClockTo? && a.t == t && !a.TryReserve?
    requires t < |Apply(s, a).threads| && InBatch(Apply(s, a).threads[t])
    ensures InBatch(s.threads[t]) && s.threads[t].claim == Apply(s, a).threads[t].claim
  {
    if a.Advance? && s.threads[t].Stepping? && s.threads[t].call.Batch? {
      OwnCheckStays(s, t);
    }
  }

  lemma OwnCheckStays(s: State, t: nat)
    requires t < |s.threads| && s.threads[t].Stepping? && s.threads[t].call.Batch?
    ensures var f := Check(s, t, s.threads[t]);
      t < |f.threads| && (InBatch(f.threads[t]) ==> f.threads[t].claim == s.threads[t].claim)
  {
  }

  lemma StaysInBatch(s: State, a: Action, t: nat)
    requires t < |s.threads| == |Apply(s, a).threads| && a != TryReserve(t) && InBatch(Apply(s, a).threads[t])
    ensures InBatch(s.threads[t]) && s.threads[t].claim == Apply(s, a).threads[t].claim
  {
    if a.ClockTo? || a.t != t {
      OthersPassive(s, a, t);
    } else {
      OwnMoveStays(s, a, t);
    }
  }

  lemma StepHolds(s: State, a: Action, t: nat)
    requires Inv(s) && t < |s.threads| == |Apply(s, a).threads| && HoldsClaim(s, t)
    ensures HoldsClaim(Apply(s, a), t)
  {
    var f := Apply(s, a);
    if a == TryReserve(t) {
      if s.threads[t].Reserving? {
        ReserveHolds(s, t);
      }
    } else if InBatch(f.threads[t]) {
      StaysInBatch(s, a, t);
      ApplyTicks(s, a);
      ApplyExtends(s, a);
      if f.clock < f.threads[t].claim.deadline {
        StaysLive(s, a, t);
      }
    }
  }

  lemma StaysLive(s: State, a: Action, t: nat)
    requires Inv(s) && t < |s.threads| == |Apply(s, a).threads| && a != TryReserve(t)
    requires InBatch(s.threads[t]) && InBatch(Apply(s, a).threads[t]) && HoldsClaim(s, t)
    requires s.clock < s.threads[t].claim.deadline
    ensures exists i :: 0 <= i < MAX_RESERVATIONS && Live(Apply(s, a), i, s.threads[t].claim)
  {
    assert PcOk(s, t);
    var c := s.threads[t].claim;
    var i :| 0 <= i < MAX_RESERVATIONS && Live(s, i, c);
    assert SlotOk(s, i);
    ClaimSurvives(s, a, i, c);
  }

  lemma {:induction false} ExecHolds(s: State, acts: seq<Action>)
    requires Inv(s) && AllHold(s)
    ensures AllHold(Exec(s, acts))
    decreases |acts|
  {
    if acts != [] {
      var f := Apply(s, acts[0]);
      ApplyInv(s, acts[0]);
      ApplyExtends(s, acts[0]);
      forall t | 0 <= t < |f.threads| ensures HoldsClaim(f, t) {
        StepHolds(s, acts[0], t);
      }
      ExecHolds(f, acts[1..]);
    }
  }

  lemma RunHolds(msToTicks: nat -> nat, threads: nat, acts: seq<Action>, t: nat)
    requires t < |Run(msToTicks, threads, acts).threads|
    ensures Inv(Run(msToTicks, threads, acts)) && Run(msToTicks, threads, acts).msToTicks == msToTicks
    ensures HoldsClaim(Run(msToTicks, threads, acts), t)
  {
    StartInv(msToTicks, threads);
    RunInv(msToTicks, threads, acts);
    SameTicks(Start(msToTicks, threads), acts);
    ExecHolds(Start(msToTicks, threads), acts);
  }

  /** Thread `t` is in front of the check of a transfer. */
  predicate BeforeCheck(s: State, t: nat) {
    t < |s.threads| && s.threads[t].Stepping? &&
    var pc := s.threads[t];
    pc.call.Batch? && pc.i < |pc.call.steps| && pc.call.steps[pc.i].kind != I2C_DELAY && pc.call.steps[pc.i].hasBuffer
  }

  /** Nobody is turned away early: in every run the check in front of a transfer passes
      at every clock below the deadline of the claim the batch entered with. */
  lemma TimelyCheckPasses(msToTicks: nat -> nat, threads: nat, acts: seq<Action>, t: nat)
    requires BeforeCheck(Run(msToTicks, threads, acts), t)
    requires var s := Run(msToTicks, threads, acts); s.clock < s.threads[t].claim.deadline
    ensures Apply(Run(msToTicks, threads, acts), Advance(t)).threads[t].InGap?
  {
    var s := Run(msToTicks, threads, acts);
    RunHolds(msToTicks, threads, acts, t);
    assert PcOk(s, t);
    var i :| 0 <= i < MAX_RESERVATIONS && Live(s, i, s.threads[t].claim);
    assert SlotOk(s, i);
    CheckPassesIff(s, t);
  }

  /** In particular for the whole batch time of the capability, from the tick of the
      claim, if the batch made the claim itself; and for the whole term of the lease it
      rides on, if it did not. */
  lemma BatchHasItsTime(msToTicks: nat -> nat, threads: nat, acts: seq<Action>, t: nat)
    requires BeforeCheck(Run(msToTicks, threads, acts), t)
    requires var s := Run(msToTicks, threads, acts); var c := s.threads[t].claim;
      if c.call.Batch? then s.clock < c.since + msToTicks(c.call.cap.maxBatchMs) < TWO_64
      else s.clock < c.since + msToTicks(c.call.holdMs) < TWO_64
    ensures Apply(Run(msToTicks, threads, acts), Advance(t)).threads[t].InGap?
  {
    RunHolds(msToTicks, threads, acts, t);
    TimelyCheckPasses(msToTicks, threads, acts, t);
  }

  // ---- A lease has its term ----------------------------------------------

  /** A granted request goes to the table with the term LeaseTermMeans describes. */
  lemma RequestKeepsTerm(s: State, t: nat, dev: Option<DeviceCap>, durationMs: Word)
    requires t < |s.threads| && s.threads[t].Idle? && LeaseTerm(dev, durationMs).0 == Ok
    ensures var pc := Apply(s, BeginLease(t, dev, durationMs)).threads[t];
      pc.Reserving? && pc.call.Lease? && pc.call.thread == t && pc.call.cap == dev.value &&
      WithinBounds(pc.call.holdMs, durationMs, dev.value.maxLeaseMs) &&
      forall m: nat :: WithinBounds(m, durationMs, dev.value.maxLeaseMs) ==> m <= pc.call.holdMs
  {
    LeaseTermMeans(dev, durationMs);
  }

  /** A lease in the table stays there, unchanged, through any run in which its owner
      does not release it, at every clock below the end of its whole term. */
  lemma LeaseLastsInFull(msToTicks: nat -> nat, threads: nat, before: seq<Action>, acts: seq<Action>, i: nat)
    requires i < MAX_RESERVATIONS
    requires var s := Run(msToTicks, threads, before); s.slots[i].active && s.marks[i].call.Lease?
    requires var c := Run(msToTicks, threads, before).marks[i];
      forall k :: 0 <= k < |acts| && acts[k].DropLease? && acts[k].t == c.call.thread ==>
        acts[k].dev.None? || acts[k].dev.value.address != c.call.cap.address
    requires var s := Run(msToTicks, threads, before); var c := s.marks[i];
      Exec(s, acts).clock < c.since + msToTicks(c.call.holdMs) < TWO_64
    ensures var s := Run(msToTicks, threads, before); var f := Exec(s, acts);
      f.slots[i] == s.slots[i] && f.slots[i].active && f.slots[i].isLease && f.marks[i] == s.marks[i]
  {
    var s := Run(msToTicks, threads, before);
    RunInv(msToTicks, threads, before);
    SlotsGrantedInFull(msToTicks, threads, before, i);
    LeaseLasts(s, acts, i, s.marks[i]);
  }

  // ---- What is let go is free ----------------------------------------------

  /** i2c_lease_release frees the caller's slot of the device, and touches no other. */
  lemma ReleaseFrees(s: State, t: nat, dev: DeviceCap)
    requires Inv(s) && t < |s.threads| && s.threads[t].Idle?
    ensures var f := Apply(s, DropLease(t, Some(dev)));
      !HeldBy(f.slots, dev.address, t) &&
      forall i :: 0 <= i < MAX_RESERVATIONS && !(Holds(s.slots[i], dev.address) && s.slots[i].owner == t) ==>
        f.slots[i] == s.slots[i]
  {
    OwnedMeans(s.slots, dev.address, t);
  }

  /** A thread that finds the address taken goes to sleep on it, if nothing was let go
      in between. */
  lemma BlockedSleeps(s: State, t: nat)
    requires t < |s.threads| && Apply(s, TryReserve(t)).threads[t].Snapped? && s.threads[t].Reserving?
    ensures Apply(Apply(s, TryReserve(t)), Sleep(t)).threads[t].Asleep?
  {
  }

  /** Thread `t` is not asleep any more if slot `i` was let go. */
  predicate Woken(s: State, f: State, t: nat, i: nat)
    requires i < MAX_RESERVATIONS
  {
    t < |f.threads| && (s.slots[i].active && !f.slots[i].active ==> !f.threads[t].Asleep?)
  }

  lemma ReserveWakes(s: State, u: nat, call: Call, t: nat, i: nat)
    requires u < |s.threads| && t < |s.threads| && u != t && i < MAX_RESERVATIONS
    ensures Woken(s, Reserve(s, u, call), t, i)
  {
    var s1 := Sweep(s);
    assert Woken(s, s1, t, i);
    match Decide(s1.slots, call.cap.address, u)
    case Claimed(j) => assert Claiming(s1, u, call, j).slots[j].active;
    case _ =>
  }

  lemma CheckWakes(s: State, u: nat, t: nat, i: nat)
    requires u < |s.threads| && t < |s.threads| && u != t && i < MAX_RESERVATIONS
    requires s.threads[u].Stepping? && s.threads[u].call.Batch?
    ensures Woken(s, Check(s, u, s.threads[u]), t, i)
  {
    assert Woken(s, Sweep(s), t, i);
  }

  lemma DropWakes(s: State, address: Address, u: nat, t: nat, i: nat)
    requires t < |s.threads| && i < MAX_RESERVATIONS
    ensures Woken(s, Drop(s, address, u), t, i)
  {
  }

  /** And whatever move deactivates any slot wakes it up. */
  lemma FreeingWakes(s: State, a: Action, t: nat, i: nat)
    requires t < |s.threads| && s.threads[t].Asleep? && i < MAX_RESERVATIONS
    ensures Woken(s, Apply(s, a), t, i)
  {
    if !a.ClockTo? && a.t < |s.threads| && a.t != t {
      var pc := s.threads[a.t];
      match a
      case TryReserve(u) => if pc.Reserving? { ReserveWakes(s, u, pc.call, t, i); }
      case Advance(u) => if pc.Stepping? && pc.call.Batch? { CheckWakes(s, u, t, i); }
      case Release(u) => if pc.Releasing? { DropWakes(s, pc.call.cap.address, u, t, i); }
      case DropLease(u, dev) => if dev.Some? { DropWakes(s, dev.value.address, u, t, i); }
      case _ =>
    }
  }

  /** A sleeper stays asleep, goes back to reserving for the call it was in, or gives it
      up; it need not wait for a slot to be freed. */
  lemma SleeperGoesOn(s: State, a: Action, t: nat)
    requires t < |s.threads| == |Apply(s, a).threads| && s.threads[t].Asleep?
    ensures var (pc, f) := (s.threads[t], Apply(s, a));
      (a == WakeEarly(t) ==> f.threads[t] == Reserving(pc.call)) &&
      (a != TimeOut(t) ==> f.threads[t] == pc || f.threads[t] == Reserving(pc.call)) &&
      (a == TimeOut(t) ==> f.threads[t].Idle? && f.log == s.log + [Finished(pc.call, Etimedout)])
  {
    if a != TimeOut(t) && a != WakeEarly(t) && (a.ClockTo? || a.t != t) {
      OthersPassive(s, a, t);
    }
  }

  /** A call that is refused before it reserves leaves everything but the log as it was,
      and the log says how it was refused. */
  lemma RefusedTouchesNothing(s: State, t: nat, dev: Option<DeviceCap>, steps: seq<Step>, durationMs: Word)
    requires t < |s.threads| && s.threads[t].Idle?
    ensures Admit(dev, steps) != Ok ==>
      Apply(s, BeginBatch(t, dev, steps)) == s.(log := s.log + [Rejected(t, Admit(dev, steps))])
    ensures LeaseTerm(dev, durationMs).0 != Ok ==>
      Apply(s, BeginLease(t, dev, durationMs)) == s.(log := s.log + [Rejected(t, LeaseTerm(dev, durationMs).0)])
    ensures dev.None? ==> Apply(s, DropLease(t, dev)) == s.(log := s.log + [Rejected(t, Eperm)])
  {
  }
}

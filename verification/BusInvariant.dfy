/** What every move of the bus protocol keeps. */
module BusInvariant {
  import opened Wrappers
  import opened Reservations
  import opened Batches
  import opened BusProtocol

  /** Inside i2c_transact, past the reservation. */
  predicate InBatch(pc: Pc) {
    pc.LookingUp? || pc.Stepping? || pc.InGap? || pc.Releasing?
  }

  predicate Waiting(pc: Pc) {
    pc.Snapped? || pc.Asleep?
  }

  function Actor(e: Event): nat {
    if e.Rejected? then e.thread else e.call.thread
  }

  predicate Concerns(e: Event, call: Call) {
    !e.Rejected? && e.call == call
  }

  /** The transfer attempts a call has made so far. */
  function Wires(log: seq<Event>, call: Call): seq<Attempt> {
    if log == [] then []
    else
      var e := log[|log| - 1];
      Wires(log[..|log| - 1], call) +
      (if e.Wire? && e.call == call then [Attempt(e.i, e.ok)] else [])
  }

  /** A call past its admission checks. */
  predicate Admitted(call: Call) {
    match call
    case Batch(_, _, cap, steps) => Admit(Some(cap), steps) == Ok
    case Lease(_, _, cap, holdMs) => holdMs > 0 && (cap.maxLeaseMs > 0 ==> holdMs <= cap.maxLeaseMs)
  }

  // ---- The table ---------------------------------------------------------

  predicate ClaimOk(s: State, c: Claim) {
    Admitted(c.call) && c.since <= s.clock && c.deadline == Deadline(c.since, s.msToTicks(HoldMs(c.call))) &&
    c.id < s.nextClaim && c.call.id < s.nextCall && c.call.thread < |s.threads|
  }

  /** A slot holds exactly what its claim was granted: no field ever changes. */
  predicate SlotOk(s: State, i: nat)
    requires i < MAX_RESERVATIONS
  {
    s.slots[i].active ==>
      var c := s.marks[i];
      s.slots[i] == Slot(true, c.call.cap.address, c.call.thread, c.deadline, c.call.Lease?) && ClaimOk(s, c)
  }

  ghost predicate TableInv(s: State) {
    (forall i :: 0 <= i < MAX_RESERVATIONS ==> SlotOk(s, i)) &&
    Unambiguous(s.slots) && s.gen == s.bumps % TWO_32
  }

  /** How a slot's owner stands to it: a batch slot belongs to a thread inside
      that batch, and inside a batch the slot of its address is the one entered. */
  predicate OwnOk(s: State, i: nat)
    requires i < MAX_RESERVATIONS
  {
    s.slots[i].active && s.slots[i].owner < |s.threads| ==>
      var pc := s.threads[s.slots[i].owner];
      (!s.slots[i].isLease ==> InBatch(pc) && pc.call.cap.address == s.slots[i].address) &&
      (InBatch(pc) && pc.call.cap.address == s.slots[i].address ==>
        s.marks[i] == pc.claim &&
        (pc.Stepping? || pc.InGap? ==> pc.leased == s.slots[i].isLease) &&
        (pc.Releasing? ==> !s.slots[i].isLease))
  }

  ghost predicate OwnInv(s: State) {
    forall i :: 0 <= i < MAX_RESERVATIONS ==> OwnOk(s, i)
  }

  // ---- The threads -------------------------------------------------------

  /** A waiting thread remembers a claim of somebody else on its address, and that
      claim is still there unless the word has been bumped since. */
  predicate WaitOk(s: State, t: nat, pc: Pc)
    requires Waiting(pc)
  {
    pc.bumpsSeen <= s.bumps && pc.word == pc.bumpsSeen % TWO_32 && pc.slot < MAX_RESERVATIONS &&
    pc.blocker.call.thread != t && pc.blocker.call.cap.address == pc.call.cap.address &&
    (pc.bumpsSeen == s.bumps ==> s.slots[pc.slot].active && s.marks[pc.slot] == pc.blocker) &&
    (pc.Asleep? ==> s.gen == pc.word)
  }

  /** As long as slot `i` carries `claim`, no other thread passed a check on its
      address since log entry `entry`. */
  ghost predicate AloneSince(log: seq<Event>, entry: nat, t: nat, address: Address) {
    forall m :: entry < m < |log| && log[m].Passed? && log[m].call.cap.address == address ==>
      log[m].call.thread == t
  }

  predicate Live(s: State, i: nat, c: Claim)
    requires i < MAX_RESERVATIONS
  {
    s.slots[i].active && s.marks[i] == c
  }

  ghost predicate EntryOk(s: State, t: nat, pc: Pc)
    requires InBatch(pc)
  {
    pc.call.Batch? && pc.claim.id < s.nextClaim &&
    pc.claim.call.thread == t && pc.claim.call.cap.address == pc.call.cap.address &&
    pc.entry < |s.log| && s.log[pc.entry] == Entered(pc.call, pc.claim) &&
    (forall i :: 0 <= i < MAX_RESERVATIONS && Live(s, i, pc.claim) ==>
      AloneSince(s.log, pc.entry, t, pc.call.cap.address))
  }

  /** How far the step loop has got, against the attempts in the log. */
  ghost predicate ProgressOk(log: seq<Event>, pc: Pc)
    requires InBatch(pc) && pc.call.Batch?
  {
    var steps, wires := pc.call.steps, Wires(log, pc.call);
    match pc
    case LookingUp(_, _, _) => wires == []
    case Stepping(_, _, _, _, i) => i <= |steps| && Clear(steps, i) && wires == Attempts(steps, i)
    case InGap(_, _, _, _, i, _) =>
      i < |steps| && steps[i].kind != I2C_DELAY && steps[i].hasBuffer &&
      Clear(steps, i) && wires == Attempts(steps, i)
    case Releasing(_, _, _, result) => Outcome(steps, result, wires)
    case _ => true
  }

  ghost predicate Silent(log: seq<Event>, from: nat, t: nat) {
    forall m :: from < m < |log| ==> Actor(log[m]) != t
  }

  ghost predicate GapOk(log: seq<Event>, t: nat, pc: Pc)
    requires pc.InGap?
  {
    pc.check < |log| && log[pc.check].Passed? && log[pc.check].call == pc.call && Silent(log, pc.check, t)
  }

  ghost predicate EnteredOnce(log: seq<Event>, pc: Pc)
    requires InBatch(pc)
  {
    forall k :: 0 <= k < |log| && log[k].Entered? && log[k].call == pc.call ==> k == pc.entry
  }

  ghost predicate PcOk(s: State, t: nat)
    requires t < |s.threads|
  {
    var pc := s.threads[t];
    !pc.Idle? ==>
      Admitted(pc.call) && pc.call.thread == t && pc.call.id < s.nextCall &&
      (forall k :: 0 <= k < |s.log| && Concerns(s.log[k], pc.call) ==> InBatch(pc) && !s.log[k].Finished?) &&
      (Waiting(pc) ==> WaitOk(s, t, pc)) &&
      (InBatch(pc) ==> EntryOk(s, t, pc) && ProgressOk(s.log, pc)) &&
      (InBatch(pc) ==> EnteredOnce(s.log, pc)) &&
      (pc.InGap? ==> GapOk(s.log, t, pc))
  }

  ghost predicate PcInv(s: State) {
    forall t :: 0 <= t < |s.threads| ==> PcOk(s, t)
  }

  // ---- The log -----------------------------------------------------------

  /** What entry `k` of the log promises about the entries before it. */
  ghost predicate EventOk(log: seq<Event>, k: nat)
    requires k < |log|
  {
    var e := log[k];
    match e
    case Rejected(_, _) => true
    case Entered(call, claim) =>
      claim.call.thread == call.thread && claim.call.cap.address == call.cap.address &&
      (call.Lease? ==> claim.call.Lease?) &&
      (forall j :: 0 <= j < k ==> !Concerns(log[j], call))
    case Passed(call, claim, entry, at) =>
      call.Batch? && entry < k && log[entry] == Entered(call, claim) && at < claim.deadline &&
      AloneSince(log[..k], entry, call.thread, call.cap.address)
    case Wire(call, i, ok, check) =>
      call.Batch? && i < |call.steps| && call.steps[i].kind != I2C_DELAY && Clear(call.steps, i + 1) &&
      check < k && log[check].Passed? && log[check].call == call && Silent(log[..k], check, call.thread)
    case Finished(call, status) =>
      call.Batch? ==> FinishedOk(log[..k], call, status)
  }

  /** A finished batch met its specification, or never got the reservation. */
  ghost predicate FinishedOk(before: seq<Event>, call: Call, status: Status)
    requires call.Batch?
  {
    Outcome(call.steps, status, Wires(before, call)) ||
    ((status == Ebusy || status == Etimedout) && forall j :: 0 <= j < |before| ==> !Concerns(before[j], call))
  }

  /** Nothing happens for a call after it returned. */
  ghost predicate Settled(log: seq<Event>) {
    forall j, k :: 0 <= j < k < |log| && log[j].Finished? ==> !Concerns(log[k], log[j].call)
  }

  ghost predicate LogInv(s: State) {
    (forall k :: 0 <= k < |s.log| ==> EventOk(s.log, k)) &&
    (forall k :: 0 <= k < |s.log| && !s.log[k].Rejected? ==>
      s.log[k].call.id < s.nextCall && Admitted(s.log[k].call)) &&
    Settled(s.log)
  }

  ghost predicate Inv(s: State) {
    TableInv(s) && OwnInv(s) && PcInv(s) && LogInv(s)
  }

  // ---- Initially ---------------------------------------------------------

  lemma StartInv(msToTicks: nat -> nat, threads: nat)
    ensures Inv(Start(msToTicks, threads))
  {
  }

  // ---- Slots are given up ------------------------------------------------

  ghost predicate Shrinks(was: seq<Slot>, now: seq<Slot>) {
    |now| == |was| &&
    forall i :: 0 <= i < |was| ==> now[i] == was[i] || (was[i].active && now[i] == was[i].(active := false))
  }

  lemma FreedInv(s: State, slots: seq<Slot>)
    requires Inv(s) && Shrinks(s.slots, slots)
    ensures Inv(Freed(s, slots))
  {
    var f := Freed(s, slots);
    assert TableInv(f) by {
      forall i | 0 <= i < MAX_RESERVATIONS ensures SlotOk(f, i) { assert SlotOk(s, i); }
    }
    assert OwnInv(f) by {
      forall i | 0 <= i < MAX_RESERVATIONS ensures OwnOk(f, i) { assert OwnOk(s, i); }
    }
    forall t | 0 <= t < |f.threads| ensures PcOk(f, t) {
      assert PcOk(s, t);
      FreedPc(s, slots, t);
    }
  }

  lemma FreedPc(s: State, slots: seq<Slot>, t: nat)
    requires t < |s.threads| && PcOk(s, t) && Shrinks(s.slots, slots)
    ensures PcOk(Freed(s, slots), t)
  {
    var f := Freed(s, slots);
    var pc := s.threads[t];
    if InBatch(pc) {
      assert forall i :: 0 <= i < MAX_RESERVATIONS && Live(f, i, pc.claim) ==> Live(s, i, pc.claim);
    }
  }

  lemma SweepInv(s: State)
    requires Inv(s)
    ensures Inv(Sweep(s)) && !AnyStale(Sweep(s).slots, s.clock)
  {
    if AnyStale(s.slots, s.clock) {
      FreedInv(s, Expire(s.slots, s.clock));
    }
  }

  lemma DropInv(s: State, address: Address, t: nat)
    requires Inv(s)
    ensures Inv(Drop(s, address, t))
  {
    var r := Released(s.slots, address, t);
    if r.Some? {
      FreedInv(s, Dropped(s.slots, r));
    }
  }

  // ---- One thread moves, and may leave a log entry ------------------------

  lemma WiresOfAppend(log: seq<Event>, e: Event, call: Call)
    ensures e.Wire? && e.call == call ==> Wires(log + [e], call) == Wires(log, call) + [Attempt(e.i, e.ok)]
    ensures !(e.Wire? && e.call == call) ==> Wires(log + [e], call) == Wires(log, call)
  {
    assert (log + [e])[..|log|] == log;
  }

  lemma {:induction false} NoWiresUnlessConcerned(log: seq<Event>, call: Call)
    requires forall k :: 0 <= k < |log| ==> !Concerns(log[k], call)
    ensures Wires(log, call) == []
  {
    if log != [] {
      NoWiresUnlessConcerned(log[..|log| - 1], call);
    }
  }

  /** An entry that may be appended for thread `t`: it tells the truth about the
      log so far, its call is not over, and if it is a passed check then thread `t`
      owns the address at this moment. */
  ghost predicate Appendable(s: State, e: Event, t: nat) {
    Actor(e) == t && EventOk(s.log + [e], |s.log|) &&
    (!e.Rejected? ==> e.call.id < s.nextCall && Admitted(e.call)) &&
    (!e.Rejected? ==> forall k | 0 <= k < |s.log| && s.log[k].Finished? :: s.log[k].call != e.call) &&
    (e.Passed? ==> forall i | 0 <= i < MAX_RESERVATIONS && Holds(s.slots[i], e.call.cap.address) ::
      s.slots[i].owner == t)
  }

  lemma EventOkStable(log: seq<Event>, e: Event, k: nat)
    requires k < |log| && EventOk(log, k)
    ensures EventOk(log + [e], k)
  {
    assert (log + [e])[..k] == log[..k];
    assert (log + [e])[k] == log[k];
  }

  lemma AppendLog(s: State, e: Event, t: nat)
    requires LogInv(s) && Appendable(s, e, t)
    ensures LogInv(Log(s, e))
  {
    var log := s.log + [e];
    forall k | 0 <= k < |log| ensures EventOk(log, k) {
      if k < |s.log| {
        EventOkStable(s.log, e, k);
      }
    }
    assert forall k :: 0 <= k < |s.log| ==> log[k] == s.log[k];
  }

  lemma AppendEntry(s: State, e: Event, t: nat, u: nat)
    requires u < |s.threads| && u != t && PcOk(s, u) && InBatch(s.threads[u]) && Appendable(s, e, t)
    requires forall i :: 0 <= i < MAX_RESERVATIONS ==> SlotOk(s, i)
    ensures EntryOk(Log(s, e), u, s.threads[u])
  {
    var l, pc := Log(s, e), s.threads[u];
    assert forall k :: 0 <= k < |s.log| ==> l.log[k] == s.log[k];
    forall i | 0 <= i < MAX_RESERVATIONS && Live(l, i, pc.claim)
      ensures AloneSince(l.log, pc.entry, u, pc.call.cap.address)
    {
      assert SlotOk(s, i) && Live(s, i, pc.claim);
      assert s.slots[i].owner == u;
    }
  }

  /** The other threads do not notice. */
  lemma AppendPc(s: State, e: Event, t: nat, u: nat)
    requires u < |s.threads| && u != t && PcOk(s, u) && Appendable(s, e, t)
    requires forall i :: 0 <= i < MAX_RESERVATIONS ==> SlotOk(s, i)
    ensures PcOk(Log(s, e), u)
  {
    var l, pc := Log(s, e), s.threads[u];
    assert forall k :: 0 <= k < |s.log| ==> l.log[k] == s.log[k];
    if !pc.Idle? {
      WiresOfAppend(s.log, e, pc.call);
      assert !Concerns(e, pc.call);
      if InBatch(pc) {
        AppendEntry(s, e, t, u);
      }
    }
  }

  /** The invariant but for what it says about thread `t` and its slots. */
  ghost predicate InvBut(s: State, t: nat) {
    TableInv(s) && LogInv(s) &&
    (forall i :: 0 <= i < MAX_RESERVATIONS && s.slots[i].active && s.slots[i].owner != t ==> OwnOk(s, i)) &&
    (forall u :: 0 <= u < |s.threads| && u != t ==> PcOk(s, u))
  }

  lemma LoggedInvBut(s: State, e: Event, t: nat)
    requires InvBut(s, t) && Appendable(s, e, t)
    ensures InvBut(Log(s, e), t)
  {
    var l := Log(s, e);
    AppendLog(s, e, t);
    assert TableInv(l) by {
      forall i | 0 <= i < MAX_RESERVATIONS ensures SlotOk(l, i) { assert SlotOk(s, i); }
    }
    forall i | 0 <= i < MAX_RESERVATIONS && l.slots[i].active && l.slots[i].owner != t ensures OwnOk(l, i) {
      assert OwnOk(s, i);
    }
    forall u | 0 <= u < |l.threads| && u != t ensures PcOk(l, u) {
      AppendPc(s, e, t, u);
    }
  }

  lemma PcOkElsewhere(s: State, t: nat, pc: Pc, u: nat)
    requires t < |s.threads| && u < |s.threads| && u != t && PcOk(s, u)
    ensures PcOk(SetPc(s, t, pc), u)
  {
    var f := SetPc(s, t, pc);
    assert f.threads[u] == s.threads[u];
    assert forall i, c :: 0 <= i < MAX_RESERVATIONS ==> Live(f, i, c) == Live(s, i, c);
  }

  /** Thread `t` moves to `pc`. */
  lemma MoveInv(s: State, t: nat, pc: Pc)
    requires InvBut(s, t) && t < |s.threads|
    requires PcOk(SetPc(s, t, pc), t)
    requires forall i :: 0 <= i < MAX_RESERVATIONS && s.slots[i].active && s.slots[i].owner == t ==>
      OwnOk(SetPc(s, t, pc), i)
    ensures Inv(SetPc(s, t, pc))
  {
    var f := SetPc(s, t, pc);
    assert TableInv(f) by {
      forall i | 0 <= i < MAX_RESERVATIONS ensures SlotOk(f, i) { assert SlotOk(s, i); }
    }
    assert OwnInv(f) by {
      forall i | 0 <= i < MAX_RESERVATIONS ensures OwnOk(f, i) {
        if s.slots[i].active && s.slots[i].owner != t { assert OwnOk(s, i); }
      }
    }
    forall u | 0 <= u < |f.threads| ensures PcOk(f, u) {
      if u != t {
        PcOkElsewhere(s, t, pc, u);
      }
    }
  }

  /** All slots of thread `t` are leases, but perhaps slot `but`. */
  predicate OnlyLeases(s: State, t: nat, but: Option<nat> := None) {
    forall i :: 0 <= i < MAX_RESERVATIONS && s.slots[i].active && s.slots[i].owner == t && but != Some(i) ==>
      s.slots[i].isLease
  }

  lemma OutsideOnlyLeases(s: State, t: nat)
    requires Inv(s) && t < |s.threads| && !InBatch(s.threads[t])
    ensures OnlyLeases(s, t)
  {
    forall i | 0 <= i < MAX_RESERVATIONS && s.slots[i].active && s.slots[i].owner == t ensures s.slots[i].isLease {
      assert OwnOk(s, i);
    }
  }

  lemma MoveOutsideInv(s: State, t: nat, pc: Pc)
    requires InvBut(s, t) && t < |s.threads| && !InBatch(pc) && OnlyLeases(s, t)
    requires PcOk(SetPc(s, t, pc), t)
    ensures Inv(SetPc(s, t, pc))
  {
    MoveInv(s, t, pc);
  }

  // ---- The moves ---------------------------------------------------------

  /** A call returns: its thread may keep leases, but no batch slot. */
  lemma FinishInv(s: State, t: nat, call: Call, status: Status)
    requires InvBut(s, t) && t < |s.threads| && Admitted(call) && call.thread == t && call.id < s.nextCall
    requires forall k :: 0 <= k < |s.log| && s.log[k].Finished? ==> s.log[k].call != call
    requires call.Batch? ==> FinishedOk(s.log, call, status)
    requires OnlyLeases(s, t)
    ensures Inv(Finish(s, t, call, status))
  {
    var e := Finished(call, status);
    assert (s.log + [e])[..|s.log|] == s.log;
    LoggedInvBut(s, e, t);
    MoveOutsideInv(Log(s, e), t, Idle);
  }

  /** reserve_device returned 0 with slot `i` in the hands of thread `t`: on record. */
  lemma EnteredInvBut(s: State, t: nat, call: Call, i: nat)
    requires InvBut(s, t) && t < |s.threads| && Admitted(call) && call.thread == t && call.id < s.nextCall
    requires forall k :: 0 <= k < |s.log| ==> !Concerns(s.log[k], call)
    requires i < MAX_RESERVATIONS && Holds(s.slots[i], call.cap.address) && s.slots[i].owner == t
    requires call.Lease? ==> s.slots[i].isLease
    ensures var l := Log(s, Entered(call, s.marks[i]));
      InvBut(l, t) && l.log[|s.log|] == Entered(call, s.marks[i]) && Wires(l.log, call) == [] &&
      forall j :: 0 <= j < |s.log| ==> l.log[j] == s.log[j]
  {
    var e := Entered(call, s.marks[i]);
    assert SlotOk(s, i);
    assert (s.log + [e])[|s.log|] == e;
    assert forall j :: 0 <= j < |s.log| ==> (s.log + [e])[j] == s.log[j];
    LoggedInvBut(s, e, t);
    NoWiresUnlessConcerned(s.log, call);
    WiresOfAppend(s.log, e, call);
  }

  lemma EnterInv(s: State, t: nat, call: Call, i: nat)
    requires InvBut(s, t) && t < |s.threads| && Admitted(call) && call.thread == t && call.id < s.nextCall
    requires forall k :: 0 <= k < |s.log| ==> !Concerns(s.log[k], call)
    requires i < MAX_RESERVATIONS && Holds(s.slots[i], call.cap.address) && s.slots[i].owner == t
    requires if call.Batch? then OnlyLeases(s, t, Some(i)) else OnlyLeases(s, t)
    ensures Inv(Enter(s, t, call, s.marks[i]))
  {
    var claim := s.marks[i];
    var l := Log(s, Entered(call, claim));
    EnteredInvBut(s, t, call, i);
    if call.Batch? {
      EnterBatchInv(l, t, call, i, claim);
    } else {
      FinishInv(l, t, call, Ok);
    }
  }

  /** The thread of a batch goes on inside i2c_transact. */
  lemma EnterBatchInv(l: State, t: nat, call: Call, i: nat, claim: Claim)
    requires InvBut(l, t) && t < |l.threads|
    requires Admitted(call) && call.Batch? && call.thread == t && call.id < l.nextCall
    requires |l.log| > 0 && l.log[|l.log| - 1] == Entered(call, claim) && Wires(l.log, call) == []
    requires forall k :: 0 <= k < |l.log| - 1 ==> !Concerns(l.log[k], call)
    requires i < MAX_RESERVATIONS && Holds(l.slots[i], call.cap.address) && l.slots[i].owner == t && l.marks[i] == claim
    requires OnlyLeases(l, t, Some(i))
    ensures Inv(SetPc(l, t, LookingUp(call, claim, |l.log| - 1)))
  {
    var pc := LookingUp(call, claim, |l.log| - 1);
    var f := SetPc(l, t, pc);
    assert SlotOk(l, i);
    assert EntryOk(f, t, pc) && ProgressOk(f.log, pc);
    MoveInv(l, t, pc);
  }

  /** A fresh claim disturbs nobody: it takes a free slot for a free address. */
  lemma ClaimedInvBut(s: State, t: nat, call: Call, i: nat, slot: Slot, claim: Claim)
    requires Inv(s) && t < |s.threads| && Admitted(call) && call.thread == t && call.id < s.nextCall
    requires i < MAX_RESERVATIONS && !s.slots[i].active
    requires forall j :: 0 <= j < MAX_RESERVATIONS ==> !Holds(s.slots[j], call.cap.address)
    requires claim == Claim(s.nextClaim, call, s.clock, Deadline(s.clock, s.msToTicks(HoldMs(call))))
    requires slot == Slot(true, call.cap.address, t, claim.deadline, call.Lease?)
    ensures InvBut(s.(slots := s.slots[i := slot], marks := s.marks[i := claim], nextClaim := s.nextClaim + 1), t)
  {
    var f := s.(slots := s.slots[i := slot], marks := s.marks[i := claim], nextClaim := s.nextClaim + 1);
    assert TableInv(f) by {
      forall j | 0 <= j < MAX_RESERVATIONS ensures SlotOk(f, j) { assert SlotOk(s, j); }
    }
    forall j | 0 <= j < MAX_RESERVATIONS && f.slots[j].active && f.slots[j].owner != t ensures OwnOk(f, j) {
      assert OwnOk(s, j);
    }
    forall u | 0 <= u < |f.threads| && u != t ensures PcOk(f, u) {
      assert PcOk(s, u);
      var pc := s.threads[u];
      if InBatch(pc) {
        assert forall j :: 0 <= j < MAX_RESERVATIONS && Live(f, j, pc.claim) ==> Live(s, j, pc.claim);
      }
    }
  }

  /** What is known of a call that is still in front of the table. */
  lemma InFrontOk(s: State, t: nat)
    requires Inv(s) && t < |s.threads| && s.threads[t].Reserving?
    ensures var call := s.threads[t].call;
      Admitted(call) && call.thread == t && call.id < s.nextCall && OnlyLeases(s, t) &&
      forall k :: 0 <= k < |s.log| ==> !Concerns(s.log[k], call)
  {
    assert PcOk(s, t);
    OutsideOnlyLeases(s, t);
  }

  /** A fresh claim is made and entered. */
  lemma ClaimInv(s: State, t: nat, i: nat)
    requires Inv(s) && t < |s.threads| && s.threads[t].Reserving? && i < MAX_RESERVATIONS && !s.slots[i].active
    requires forall j :: 0 <= j < MAX_RESERVATIONS ==> !Holds(s.slots[j], s.threads[t].call.cap.address)
    ensures Inv(Claiming(s, t, s.threads[t].call, i))
  {
    var call := s.threads[t].call;
    var claim := Claim(s.nextClaim, call, s.clock, Deadline(s.clock, s.msToTicks(HoldMs(call))));
    var slot := Slot(true, call.cap.address, t, claim.deadline, call.Lease?);
    InFrontOk(s, t);
    ClaimedInvBut(s, t, call, i, slot, claim);
    EnterInv(s.(slots := s.slots[i := slot], marks := s.marks[i := claim], nextClaim := s.nextClaim + 1), t, call, i);
  }

  lemma ReentrantInv(s: State, t: nat, i: nat)
    requires Inv(s) && t < |s.threads| && s.threads[t].Reserving?
    requires i < MAX_RESERVATIONS && Holds(s.slots[i], s.threads[t].call.cap.address) && s.slots[i].owner == t
    ensures Inv(Enter(s, t, s.threads[t].call, s.marks[i]))
  {
    InFrontOk(s, t);
    EnterInv(s, t, s.threads[t].call, i);
  }

  lemma FullInv(s: State, t: nat)
    requires Inv(s) && t < |s.threads| && s.threads[t].Reserving?
    ensures Inv(Finish(s, t, s.threads[t].call, Ebusy))
  {
    InFrontOk(s, t);
    FinishInv(s, t, s.threads[t].call, Ebusy);
  }

  lemma SettleInv(s: State, t: nat)
    requires Inv(s) && t < |s.threads| && s.threads[t].Reserving?
    ensures Inv(Settle(s, t, s.threads[t].call))
  {
    match Decide(s.slots, s.threads[t].call.cap.address, t)
    case Claimed(i) => ClaimInv(s, t, i);
    case Reentrant(i) => ReentrantInv(s, t, i);
    case Blocked(i) => BlockedInv(s, t, i);
    case Full => FullInv(s, t);
  }

  lemma ReserveInv(s: State, t: nat)
    requires Inv(s) && t < |s.threads| && s.threads[t].Reserving?
    ensures Inv(Reserve(s, t, s.threads[t].call))
  {
    SweepInv(s);
    SettleInv(Sweep(s), t);
  }

  lemma BlockedInv(s: State, t: nat, i: nat)
    requires Inv(s) && t < |s.threads| && s.threads[t].Reserving?
    requires i < MAX_RESERVATIONS && Holds(s.slots[i], s.threads[t].call.cap.address) && s.slots[i].owner != t
    ensures Inv(SetPc(s, t, Snapped(s.threads[t].call, s.gen, s.bumps, i, s.marks[i])))
  {
    assert PcOk(s, t) && SlotOk(s, i);
    OutsideOnlyLeases(s, t);
    MoveOutsideInv(s, t, Snapped(s.threads[t].call, s.gen, s.bumps, i, s.marks[i]));
  }

  lemma SleepInv(s: State, t: nat)
    requires Inv(s) && t < |s.threads|
    ensures Inv(Apply(s, Sleep(t)))
  {
    assert PcOk(s, t);
    var pc := s.threads[t];
    if pc.Snapped? {
      OutsideOnlyLeases(s, t);
      if s.gen == pc.word {
        MoveOutsideInv(s, t, Asleep(pc.call, pc.word, pc.bumpsSeen, pc.slot, pc.blocker));
      } else {
        MoveOutsideInv(s, t, Reserving(pc.call));
      }
    }
  }

  lemma WakeEarlyInv(s: State, t: nat)
    requires Inv(s) && t < |s.threads|
    ensures Inv(Apply(s, WakeEarly(t)))
  {
    assert PcOk(s, t);
    if s.threads[t].Asleep? {
      OutsideOnlyLeases(s, t);
      MoveOutsideInv(s, t, Reserving(s.threads[t].call));
    }
  }

  lemma TimeOutInv(s: State, t: nat)
    requires Inv(s) && t < |s.threads|
    ensures Inv(Apply(s, TimeOut(t)))
  {
    assert PcOk(s, t);
    if Waiting(s.threads[t]) {
      OutsideOnlyLeases(s, t);
      FinishInv(s, t, s.threads[t].call, Etimedout);
    }
  }

  lemma BeginInv(s: State, t: nat, call: Call)
    requires Inv(s) && t < |s.threads| && s.threads[t].Idle?
    requires Admitted(call) && call.id == s.nextCall && call.thread == t
    ensures Inv(SetPc(s.(nextCall := s.nextCall + 1), t, Reserving(call)))
  {
    var n := s.(nextCall := s.nextCall + 1);
    assert TableInv(n) by {
      forall i | 0 <= i < MAX_RESERVATIONS ensures SlotOk(n, i) { assert SlotOk(s, i); }
    }
    assert OwnInv(n) by {
      forall i | 0 <= i < MAX_RESERVATIONS ensures OwnOk(n, i) { assert OwnOk(s, i); }
    }
    forall u | 0 <= u < |s.threads| ensures PcOk(n, u) {
      assert PcOk(s, u);
      assert forall i, c :: 0 <= i < MAX_RESERVATIONS ==> Live(n, i, c) == Live(s, i, c);
    }
    OutsideOnlyLeases(n, t);
    MoveOutsideInv(n, t, Reserving(call));
  }

  lemma RejectInv(s: State, t: nat, status: Status)
    requires Inv(s) && t < |s.threads| && s.threads[t].Idle?
    ensures Inv(Log(s, Rejected(t, status)))
  {
    LoggedInvBut(s, Rejected(t, status), t);
    var l := Log(s, Rejected(t, status));
    assert SetPc(l, t, Idle) == l;
    OutsideOnlyLeases(s, t);
    MoveOutsideInv(l, t, Idle);
  }

  lemma LookUpInv(s: State, t: nat)
    requires Inv(s) && t < |s.threads|
    ensures Inv(Apply(s, LookUp(t)))
  {
    assert PcOk(s, t);
    var pc := s.threads[t];
    if pc.LookingUp? {
      var leased := LeaseAt(s.slots, pc.call.cap.address);
      var next := Stepping(pc.call, pc.claim, pc.entry, leased, 0);
      forall i | 0 <= i < MAX_RESERVATIONS && s.slots[i].active && s.slots[i].owner == t
        ensures OwnOk(SetPc(s, t, next), i)
      {
        assert OwnOk(s, i);
        if s.slots[i].address == pc.call.cap.address {
          assert Find(s.slots, pc.call.cap.address) == Some(i);
        }
      }
      SamePlace(s, t, next);
      MoveInv(s, t, next);
    }
  }

  /** Moving on within a batch keeps the entry facts. */
  lemma SamePlace(s: State, t: nat, next: Pc)
    requires t < |s.threads| && PcOk(s, t) && InBatch(s.threads[t]) && InBatch(next)
    requires next.call == s.threads[t].call && next.claim == s.threads[t].claim && next.entry == s.threads[t].entry
    ensures EntryOk(SetPc(s, t, next), t, next)
  {
    assert forall i, c :: 0 <= i < MAX_RESERVATIONS ==> Live(SetPc(s, t, next), i, c) == Live(s, i, c);
  }

  lemma LogKeepsOwn(s: State, e: Event)
    requires OwnInv(s)
    ensures OwnInv(Log(s, e))
  {
    forall i | 0 <= i < MAX_RESERVATIONS ensures OwnOk(Log(s, e), i) { assert OwnOk(s, i); }
  }

  lemma LeasedOnlyLeases(s: State, t: nat)
    requires Inv(s) && t < |s.threads| && (s.threads[t].Stepping? || s.threads[t].InGap?) && s.threads[t].leased
    ensures OnlyLeases(s, t)
  {
    forall i | 0 <= i < MAX_RESERVATIONS && s.slots[i].active && s.slots[i].owner == t ensures s.slots[i].isLease {
      assert OwnOk(s, i);
    }
  }

  /** Moving on within the step loop keeps the slots where they are. */
  lemma SameHold(s: State, t: nat, next: Pc)
    requires OwnInv(s) && t < |s.threads| && (s.threads[t].Stepping? || s.threads[t].InGap?)
    requires if next.Releasing? then !s.threads[t].leased
      else (next.Stepping? || next.InGap?) && next.leased == s.threads[t].leased
    requires next.call == s.threads[t].call && next.claim == s.threads[t].claim
    ensures forall i :: 0 <= i < MAX_RESERVATIONS && s.slots[i].active && s.slots[i].owner == t ==>
      OwnOk(SetPc(s, t, next), i)
  {
    forall i | 0 <= i < MAX_RESERVATIONS && s.slots[i].active && s.slots[i].owner == t
      ensures OwnOk(SetPc(s, t, next), i)
    {
      assert OwnOk(s, i);
    }
  }

  lemma LeaveInv(s: State, t: nat, result: Status)
    requires Inv(s) && t < |s.threads| && (s.threads[t].Stepping? || s.threads[t].InGap?)
    requires s.threads[t].call.Batch? &&
      Outcome(s.threads[t].call.steps, result, Wires(s.log, s.threads[t].call))
    ensures Inv(Leave(s, t, s.threads[t], result))
  {
    assert PcOk(s, t);
    var pc := s.threads[t];
    if pc.leased {
      LeasedOnlyLeases(s, t);
      FinishInv(s, t, pc.call, result);
    } else {
      var next := Releasing(pc.call, pc.claim, pc.entry, result);
      SamePlace(s, t, next);
      SameHold(s, t, next);
      MoveInv(s, t, next);
    }
  }

  lemma DelayInv(s: State, t: nat)
    requires Inv(s) && t < |s.threads| && s.threads[t].Stepping? && s.threads[t].call.Batch?
    requires var pc := s.threads[t]; pc.i < |pc.call.steps| && pc.call.steps[pc.i].kind == I2C_DELAY
    ensures var pc := s.threads[t];
      Inv(SetPc(s, t, Stepping(pc.call, pc.claim, pc.entry, pc.leased, pc.i + 1)))
  {
    assert PcOk(s, t);
    var pc := s.threads[t];
    var next := Stepping(pc.call, pc.claim, pc.entry, pc.leased, pc.i + 1);
    assert Attempts(pc.call.steps, pc.i + 1) == Attempts(pc.call.steps, pc.i);
    SamePlace(s, t, next);
    SameHold(s, t, next);
    MoveInv(s, t, next);
  }

  lemma CheckInv(s: State, t: nat)
    requires Inv(s) && t < |s.threads|
    ensures Inv(Apply(s, Advance(t)))
  {
    assert PcOk(s, t);
    var pc := s.threads[t];
    if pc.Stepping? {
      var steps := pc.call.steps;
      if pc.i >= |steps| {
        LeaveInv(s, t, Ok);
      } else if steps[pc.i].kind == I2C_DELAY {
        DelayInv(s, t);
      } else if !steps[pc.i].hasBuffer {
        assert StoppedAt(steps, pc.i, Einval, Wires(s.log, pc.call));
        LeaveInv(s, t, Einval);
      } else {
        SweepInv(s);
        if Owned(Sweep(s).slots, pc.call.cap.address, t) {
          PassInv(Sweep(s), t);
        } else {
          assert StoppedAt(steps, pc.i, Etimedout, Wires(s.log, pc.call));
          LeaveInv(Sweep(s), t, Etimedout);
        }
      }
    }
  }

  /** The ownership check passed: the slot found is the claim the batch entered with,
      and the log says so. */
  lemma PassedInvBut(s: State, t: nat, i: nat)
    requires Inv(s) && t < |s.threads| && s.threads[t].Stepping? && !AnyStale(s.slots, s.clock)
    requires s.threads[t].call.Batch? && Owned(s.slots, s.threads[t].call.cap.address, t)
    requires Find(s.slots, s.threads[t].call.cap.address) == Some(i)
    ensures var pc := s.threads[t]; var l := Log(s, Passed(pc.call, s.marks[i], pc.entry, s.clock));
      Live(s, i, pc.claim) && InvBut(l, t) && OwnInv(l) && l.log[|s.log|].Passed? &&
      l.log[|s.log|].call == pc.call && Wires(l.log, pc.call) == Wires(s.log, pc.call) &&
      forall k :: 0 <= k < |s.log| ==> l.log[k] == s.log[k]
  {
    assert PcOk(s, t);
    var pc := s.threads[t];
    assert SlotOk(s, i) && OwnOk(s, i) && !Stale(s.slots[i], s.clock);
    assert Live(s, i, pc.claim);
    var e := Passed(pc.call, s.marks[i], pc.entry, s.clock);
    var l := Log(s, e);
    assert l.log[..|s.log|] == s.log && l.log[|s.log|] == e;
    assert forall k :: 0 <= k < |s.log| ==> l.log[k] == s.log[k];
    LoggedInvBut(s, e, t);
    WiresOfAppend(s.log, e, pc.call);
    LogKeepsOwn(s, e);
  }

  /** And the thread goes on to the wire. */
  lemma PassInv(s: State, t: nat)
    requires Inv(s) && t < |s.threads| && s.threads[t].Stepping? && !AnyStale(s.slots, s.clock)
    requires s.threads[t].call.Batch? && Owned(s.slots, s.threads[t].call.cap.address, t)
    requires var pc := s.threads[t];
      pc.i < |pc.call.steps| && pc.call.steps[pc.i].kind != I2C_DELAY && pc.call.steps[pc.i].hasBuffer
    ensures var pc := s.threads[t];
      var mine := s.marks[Find(s.slots, pc.call.cap.address).value];
      Inv(SetPc(Log(s, Passed(pc.call, mine, pc.entry, s.clock)), t,
                InGap(pc.call, pc.claim, pc.entry, pc.leased, pc.i, |s.log|)))
  {
    assert PcOk(s, t);
    var pc := s.threads[t];
    var i := Find(s.slots, pc.call.cap.address).value;
    PassedInvBut(s, t, i);
    var l := Log(s, Passed(pc.call, s.marks[i], pc.entry, s.clock));
    var next := InGap(pc.call, pc.claim, pc.entry, pc.leased, pc.i, |s.log|);
    assert AloneSince(s.log, pc.entry, t, pc.call.cap.address);
    assert AloneSince(l.log, pc.entry, t, pc.call.cap.address);
    assert EntryOk(SetPc(l, t, next), t, next);
    SameHold(l, t, next);
    MoveInv(l, t, next);
  }

  /** A wire entry does not affect what is known about the batch's entry. */
  lemma StillEntered(s: State, e: Event, t: nat)
    requires t < |s.threads| && InBatch(s.threads[t]) && EntryOk(s, t, s.threads[t]) && e.Wire?
    ensures forall next: Pc | InBatch(next) && next.call == s.threads[t].call &&
      next.claim == s.threads[t].claim && next.entry == s.threads[t].entry ::
      EntryOk(SetPc(Log(s, e), t, next), t, next)
  {
    var pc := s.threads[t];
    forall next: Pc | InBatch(next) && next.call == pc.call && next.claim == pc.claim && next.entry == pc.entry
      ensures EntryOk(SetPc(Log(s, e), t, next), t, next)
    {
      var f := SetPc(Log(s, e), t, next);
      forall i | 0 <= i < MAX_RESERVATIONS && Live(f, i, pc.claim)
        ensures AloneSince(f.log, pc.entry, t, pc.call.cap.address)
      {
        assert Live(s, i, pc.claim);
      }
    }
  }

  /** Thread `t` puts step `i` on the wire: the log entry, before it moves on. */
  lemma WireLogged(s: State, t: nat, ok: bool)
    requires Inv(s) && t < |s.threads| && s.threads[t].InGap? && s.threads[t].call.Batch?
    requires s.threads[t].i < |s.threads[t].call.steps| && s.threads[t].call.steps[s.threads[t].i].len > 0
    ensures var pc := s.threads[t];
      var e := Wire(pc.call, pc.i, ok, pc.check);
      InvBut(Log(s, e), t) && OwnInv(Log(s, e)) && Admitted(pc.call) && pc.call.thread == t && pc.call.Batch? &&
      (forall k :: 0 <= k < |s.log| + 1 && Concerns(Log(s, e).log[k], pc.call) ==> !Log(s, e).log[k].Finished?) &&
      EnteredOnce(Log(s, e).log, pc) &&
      Wires(Log(s, e).log, pc.call) == Wires(s.log, pc.call) + [Attempt(pc.i, ok)]
  {
    assert PcOk(s, t);
    var pc := s.threads[t];
    var e := Wire(pc.call, pc.i, ok, pc.check);
    var l := Log(s, e);
    assert l.log[..|s.log|] == s.log && l.log[|s.log|] == e;
    assert forall k :: 0 <= k < |s.log| ==> l.log[k] == s.log[k];
    LoggedInvBut(s, e, t);
    LogKeepsOwn(s, e);
    WiresOfAppend(s.log, e, pc.call);
  }

  lemma PutAcceptedInv(s: State, t: nat)
    requires Inv(s) && t < |s.threads| && s.threads[t].InGap? && s.threads[t].call.Batch?
    requires s.threads[t].i < |s.threads[t].call.steps| && s.threads[t].call.steps[s.threads[t].i].len > 0
    ensures var pc := s.threads[t];
      Inv(SetPc(Log(s, Wire(pc.call, pc.i, true, pc.check)), t,
                Stepping(pc.call, pc.claim, pc.entry, pc.leased, pc.i + 1)))
  {
    assert PcOk(s, t);
    var pc := s.threads[t];
    var e := Wire(pc.call, pc.i, true, pc.check);
    WireLogged(s, t, true);
    StillEntered(s, e, t);
    var next := Stepping(pc.call, pc.claim, pc.entry, pc.leased, pc.i + 1);
    SameHold(Log(s, e), t, next);
    MoveInv(Log(s, e), t, next);
  }

  lemma PutFailedInv(s: State, t: nat)
    requires Inv(s) && t < |s.threads| && s.threads[t].InGap? && s.threads[t].call.Batch?
    requires s.threads[t].i < |s.threads[t].call.steps| && s.threads[t].call.steps[s.threads[t].i].len > 0
    ensures var pc := s.threads[t];
      Inv(Leave(Log(s, Wire(pc.call, pc.i, false, pc.check)), t, pc, Eio))
  {
    assert PcOk(s, t);
    var pc := s.threads[t];
    var e := Wire(pc.call, pc.i, false, pc.check);
    var l := Log(s, e);
    WireLogged(s, t, false);
    assert StoppedAt(pc.call.steps, pc.i, Eio, Wires(l.log, pc.call));
    if pc.leased {
      LeasedOnlyLeases(s, t);
      FinishInv(l, t, pc.call, Eio);
    } else {
      StillEntered(s, e, t);
      var next := Releasing(pc.call, pc.claim, pc.entry, Eio);
      SameHold(l, t, next);
      MoveInv(l, t, next);
    }
  }

  lemma PutInv(s: State, t: nat, accepted: bool)
    requires Inv(s) && t < |s.threads| && s.threads[t].InGap?
    ensures Inv(Apply(s, Transfer(t, accepted)))
  {
    assert PcOk(s, t);
    var pc := s.threads[t];
    if pc.call.steps[pc.i].len == 0 {
      assert StoppedAt(pc.call.steps, pc.i, Einval, Wires(s.log, pc.call));
      LeaveInv(s, t, Einval);
    } else if accepted {
      PutAcceptedInv(s, t);
    } else {
      PutFailedInv(s, t);
    }
  }

  /** release_device at the end of a batch: its slot, if still there, goes. */
  lemma ReleaseInv(s: State, t: nat)
    requires Inv(s) && t < |s.threads|
    ensures Inv(Apply(s, Release(t)))
  {
    assert PcOk(s, t);
    var pc := s.threads[t];
    if pc.Releasing? {
      var address := pc.call.cap.address;
      var d := Drop(s, address, t);
      DropInv(s, address, t);
      assert forall i :: 0 <= i < MAX_RESERVATIONS && Holds(s.slots[i], address) ==> Find(s.slots, address) == Some(i);
      forall i | 0 <= i < MAX_RESERVATIONS && d.slots[i].active && d.slots[i].owner == t ensures d.slots[i].isLease {
        assert OwnOk(s, i);
      }
      FinishInv(d, t, pc.call, pc.result);
    }
  }

  lemma ClockInv(s: State, now: Tick)
    requires Inv(s)
    ensures Inv(Apply(s, ClockTo(now)))
  {
    var f := Apply(s, ClockTo(now));
    assert TableInv(f) by {
      forall i | 0 <= i < MAX_RESERVATIONS ensures SlotOk(f, i) { assert SlotOk(s, i); }
    }
    assert OwnInv(f) by {
      forall i | 0 <= i < MAX_RESERVATIONS ensures OwnOk(f, i) { assert OwnOk(s, i); }
    }
    forall t | 0 <= t < |f.threads| ensures PcOk(f, t) {
      assert PcOk(s, t);
      assert forall i, c :: 0 <= i < MAX_RESERVATIONS ==> Live(f, i, c) == Live(s, i, c);
    }
  }

  lemma ApplyInv(s: State, a: Action)
    requires Inv(s)
    ensures Inv(Apply(s, a))
  {
    if a.ClockTo? {
      ClockInv(s, a.now);
    } else if a.t < |s.threads| {
      var pc := s.threads[a.t];
      match a
      case BeginBatch(t, dev, steps) =>
        if pc.Idle? {
          if Admit(dev, steps) != Ok { RejectInv(s, t, Admit(dev, steps)); }
          else { BeginInv(s, t, Batch(s.nextCall, t, dev.value, steps)); }
        }
      case BeginLease(t, dev, durationMs) =>
        if pc.Idle? {
          var (status, holdMs) := LeaseTerm(dev, durationMs);
          if status != Ok { RejectInv(s, t, status); }
          else { BeginInv(s, t, Lease(s.nextCall, t, dev.value, holdMs)); }
        }
      case TryReserve(t) => if pc.Reserving? { ReserveInv(s, t); }
      case Sleep(t) => SleepInv(s, t);
      case WakeEarly(t) => WakeEarlyInv(s, t);
      case TimeOut(t) => TimeOutInv(s, t);
      case LookUp(t) => LookUpInv(s, t);
      case Advance(t) => CheckInv(s, t);
      case Transfer(t, accepted) => if pc.InGap? { PutInv(s, t, accepted); }
      case Release(t) => ReleaseInv(s, t);
      case DropLease(t, dev) =>
        if pc.Idle? {
          if dev.None? { RejectInv(s, t, Eperm); } else { DropInv(s, dev.value.address, t); }
        }
    }
  }

  /** Every state of every run. */
  lemma {:induction false} ExecInv(s: State, acts: seq<Action>)
    requires Inv(s)
    ensures Inv(Exec(s, acts))
    decreases |acts|
  {
    if acts != [] {
      ApplyInv(s, acts[0]);
      ExecInv(Apply(s, acts[0]), acts[1..]);
    }
  }
}

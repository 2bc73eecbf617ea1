/** What holds in every run of the bus protocol, for any number of threads, any
    capabilities, any clock and any interleaving. */
module BusTheorems {
  import opened Wrappers
  import opened Reservations
  import opened Batches
  import opened BusProtocol
  import opened BusInvariant

  /** The state after a run from power-up. */
  function Run(msToTicks: nat -> nat, threads: nat, acts: seq<Action>): State {
    Exec(Start(msToTicks, threads), acts)
  }

  lemma RunInv(msToTicks: nat -> nat, threads: nat, acts: seq<Action>)
    ensures Inv(Run(msToTicks, threads, acts))
  {
    StartInv(msToTicks, threads);
    ExecInv(Start(msToTicks, threads), acts);
  }

  lemma {:induction false} ExecConcat(s: State, a: seq<Action>, b: seq<Action>)
    ensures Exec(s, a + b) == Exec(Exec(s, a), b)
    decreases |a|
  {
    if a == [] {
      assert a + b == b;
    } else {
      assert (a + b)[1..] == a[1..] + b;
      ExecConcat(Apply(s, a[0]), a[1..], b);
    }
  }

  lemma Three(s: State, a: Action, b: Action, c: Action)
    ensures Exec(s, [a, b, c]) == Apply(Apply(Apply(s, a), b), c)
  {
    assert [a, b, c][1..] == [b, c] && [b, c][1..] == [c] && [c][1..] == [];
    assert Exec(Apply(Apply(s, a), b), [c]) == Exec(Apply(Apply(Apply(s, a), b), c), []);
  }

  // ---- Runs extend the log and the clock ---------------------------------

  /** Nothing logged is lost, the clock does not go back, and a thread in the gap
      with a check as old as `s` has been there since. */
  ghost predicate Extends(s: State, f: State) {
    s.clock <= f.clock && |s.threads| == |f.threads| && s.log <= f.log && s.nextClaim <= f.nextClaim &&
    forall u :: 0 <= u < |s.threads| && f.threads[u].InGap? && f.threads[u].check < |s.log| ==>
      f.threads[u] == s.threads[u]
  }

  lemma ReserveExtends(s: State, t: nat, call: Call)
    requires t < |s.threads|
    ensures Extends(s, Reserve(s, t, call))
  {
    var s1 := Sweep(s);
    assert Extends(s, s1);
    match Decide(s1.slots, call.cap.address, t)
    case Claimed(i) =>
      var f := Reserve(s, t, call);
      assert f.threads[..t] == s1.threads[..t] && f.threads[t + 1..] == s1.threads[t + 1..];
    case Reentrant(i) =>
    case Blocked(i) =>
    case Full =>
  }

  lemma CheckExtends(s: State, t: nat)
    requires t < |s.threads| && s.threads[t].Stepping? && s.threads[t].call.Batch?
    ensures Extends(s, Check(s, t, s.threads[t]))
  {
    assert Extends(s, Sweep(s));
  }

  lemma PutExtends(s: State, t: nat, accepted: bool)
    requires t < |s.threads| && s.threads[t].InGap? && s.threads[t].call.Batch?
    requires s.threads[t].i < |s.threads[t].call.steps|
    ensures Extends(s, Put(s, t, s.threads[t], accepted))
  {
  }

  lemma ReleaseExtends(s: State, t: nat, address: Address)
    requires t < |s.threads|
    ensures Extends(s, Drop(s, address, t))
    ensures forall call, status :: Extends(s, Finish(Drop(s, address, t), t, call, status))
  {
  }

  lemma ApplyExtends(s: State, a: Action)
    ensures Extends(s, Apply(s, a))
  {
    if !a.ClockTo? && a.t < |s.threads| {
      var pc := s.threads[a.t];
      match a
      case TryReserve(t) => if pc.Reserving? { ReserveExtends(s, t, pc.call); }
      case Advance(t) => if pc.Stepping? && pc.call.Batch? { CheckExtends(s, t); }
      case Transfer(t, accepted) =>
        if pc.InGap? && pc.call.Batch? && pc.i < |pc.call.steps| { PutExtends(s, t, accepted); }
      case Release(t) => if pc.Releasing? { ReleaseExtends(s, t, pc.call.cap.address); }
      case DropLease(t, dev) => if dev.Some? { ReleaseExtends(s, t, dev.value.address); }
      case _ =>
    }
  }

  lemma {:induction false} ExecExtends(s: State, acts: seq<Action>)
    ensures Extends(s, Exec(s, acts))
    decreases |acts|
  {
    if acts != [] {
      ApplyExtends(s, acts[0]);
      ExecExtends(Apply(s, acts[0]), acts[1..]);
    }
  }

  // ---- Batch isolation ---------------------------------------------------

  /** Whenever an ownership check passes, the slot found is the very claim the
      batch entered with, that claim has not expired, and since the batch entered
      no other thread passed a check on the address. */
  lemma BatchIsolation(msToTicks: nat -> nat, threads: nat, acts: seq<Action>, k: nat)
    requires var log := Run(msToTicks, threads, acts).log; k < |log| && log[k].Passed?
    ensures var log := Run(msToTicks, threads, acts).log; var p := log[k];
      p.entry < k && log[p.entry] == Entered(p.call, p.claim) && p.at < p.claim.deadline &&
      p.claim.call.thread == p.call.thread && p.claim.call.cap.address == p.call.cap.address &&
      (forall j :: 0 <= j < k && log[j].Entered? && log[j].call == p.call ==> j == p.entry) &&
      (forall m :: p.entry < m < k && log[m].Passed? && log[m].call.cap.address == p.call.cap.address ==>
        log[m].call.thread == p.call.thread)
  {
    RunInv(msToTicks, threads, acts);
    PassedFacts(Run(msToTicks, threads, acts), k);
  }

  lemma PassedFacts(s: State, k: nat)
    requires LogInv(s) && k < |s.log| && s.log[k].Passed?
    ensures var p := s.log[k];
      p.entry < k && s.log[p.entry] == Entered(p.call, p.claim) && p.at < p.claim.deadline &&
      p.claim.call.thread == p.call.thread && p.claim.call.cap.address == p.call.cap.address &&
      (forall j :: 0 <= j < k && s.log[j].Entered? && s.log[j].call == p.call ==> j == p.entry) &&
      (forall m :: p.entry < m < k && s.log[m].Passed? && s.log[m].call.cap.address == p.call.cap.address ==>
        s.log[m].call.thread == p.call.thread)
  {
    var p := s.log[k];
    assert EventOk(s.log, k);
    assert EventOk(s.log, p.entry);
    forall j | 0 <= j < k && s.log[j].Entered? && s.log[j].call == p.call ensures j == p.entry {
      assert EventOk(s.log, j);
      assert Concerns(s.log[j], p.call) && Concerns(s.log[p.entry], p.call);
    }
    forall m | p.entry < m < k && s.log[m].Passed? && s.log[m].call.cap.address == p.call.cap.address
      ensures s.log[m].call.thread == p.call.thread
    {
      assert s.log[..k][m] == s.log[m];
    }
  }

  /** A transfer of another thread that lands on the wire between a batch's entry
      and one of its passed checks was itself checked before that entry. */
  lemma ForeignTransferIsStale(s: State, k: nat, m: nat)
    requires LogInv(s) && k < |s.log| && s.log[k].Passed?
    requires s.log[k].entry < m < k && s.log[m].Wire?
    requires s.log[m].call.cap.address == s.log[k].call.cap.address
    requires s.log[m].call.thread != s.log[k].call.thread
    ensures s.log[m].check < s.log[k].entry
  {
    PassedFacts(s, k);
    assert EventOk(s.log, m);
    assert s.log[s.log[m].check].Passed?;
  }

  /** Every other thread can do that at most once per batch. */
  lemma OneStaleTransferPerThread(msToTicks: nat -> nat, threads: nat, acts: seq<Action>, k: nat, m: nat, m': nat)
    requires var log := Run(msToTicks, threads, acts).log;
      k < |log| && log[k].Passed? && log[k].entry < m < k && log[k].entry < m' < k &&
      log[m].Wire? && log[m'].Wire? && log[m].call.thread == log[m'].call.thread != log[k].call.thread &&
      log[m].call.cap.address == log[m'].call.cap.address == log[k].call.cap.address
    ensures m == m'
  {
    RunInv(msToTicks, threads, acts);
    var s := Run(msToTicks, threads, acts);
    ForeignTransferIsStale(s, k, m);
    ForeignTransferIsStale(s, k, m');
    assert EventOk(s.log, m) && EventOk(s.log, m');
    assert forall i, j :: 0 <= i < j < |s.log| ==> s.log[..j][i] == s.log[i];
  }

  /** Thread `u` may put a transfer on `address` without another check. */
  predicate GapAt(s: State, u: nat, address: Address) {
    u < |s.threads| && s.threads[u].InGap? && s.threads[u].call.Batch? && s.threads[u].call.cap.address == address &&
    s.threads[u].i < |s.threads[u].call.steps| && s.threads[u].call.steps[s.threads[u].i].hasBuffer &&
    s.threads[u].call.steps[s.threads[u].i].len > 0
  }

  /** What `f` logs beyond `s` contains no transfer. */
  predicate NoNewWire(s: State, f: State) {
    forall m :: |s.log| <= m < |f.log| ==> !f.log[m].Wire?
  }

  lemma ReserveNoWire(s: State, t: nat, call: Call)
    requires t < |s.threads|
    ensures NoNewWire(s, Reserve(s, t, call))
  {
    assert Sweep(s).log == s.log;
  }

  lemma CheckNoWire(s: State, t: nat)
    requires t < |s.threads| && s.threads[t].Stepping? && s.threads[t].call.Batch?
    ensures NoNewWire(s, Check(s, t, s.threads[t]))
  {
    assert Sweep(s).log == s.log;
  }

  lemma OnlyTransfersWire(s: State, a: Action)
    requires !a.Transfer?
    ensures NoNewWire(s, Apply(s, a))
  {
    if !a.ClockTo? && a.t < |s.threads| {
      var pc := s.threads[a.t];
      match a
      case TryReserve(t) => if pc.Reserving? { ReserveNoWire(s, t, pc.call); }
      case Advance(t) => if pc.Stepping? && pc.call.Batch? { CheckNoWire(s, t); }
      case _ =>
    }
  }

  /** A move that logs a transfer is a move out of the gap. */
  lemma GapStep(s: State, a: Action, m: nat)
    requires Inv(s) && |s.log| <= m < |Apply(s, a).log| && Apply(s, a).log[m].Wire?
    ensures var w := Apply(s, a).log[m]; var u := w.call.thread;
      GapAt(s, u, w.call.cap.address) && s.threads[u].check == w.check
  {
    if !a.Transfer? {
      OnlyTransfersWire(s, a);
    }
    assert a.t < |s.threads| ==> PcOk(s, a.t);
  }

  /** A later transfer with an earlier check comes from a thread that is in the
      gap between check and wire now. */
  lemma {:induction false} GapTrack(s: State, acts: seq<Action>, m: nat)
    requires Inv(s)
    requires var log := Exec(s, acts).log; |s.log| <= m < |log| && log[m].Wire? && log[m].check < |s.log|
    ensures var w := Exec(s, acts).log[m];
      GapAt(s, w.call.thread, w.call.cap.address) && s.threads[w.call.thread].check == w.check
    decreases |acts|
  {
    if acts != [] {
      var a, n := acts[0], Apply(s, acts[0]);
      ApplyInv(s, a);
      ApplyExtends(s, a);
      ExecExtends(n, acts[1..]);
      if m < |n.log| {
        assert n.log[m] == Exec(s, acts).log[m];
        GapStep(s, a, m);
      } else {
        GapTrack(n, acts[1..], m);
      }
    }
  }

  /** After `acts`, a foreign transfer precedes a passed check of `call`. */
  ghost predicate Overtaken(s: State, call: Call, acts: seq<Action>) {
    var f := Exec(s, acts);
    exists m, k :: |s.log| <= m < k < |f.log| && f.log[k].Passed? && f.log[k].call == call &&
      f.log[m].Wire? && f.log[m].call.cap.address == call.cap.address && f.log[m].call.thread != call.thread
  }

  /** The bus itself can be overtaken, and exactly when: a batch in front of a
      transfer, holding a live unexpired claim, can see a foreign transfer on its
      device before its check if and only if some other thread is, right now, in
      the gap between its own check and the wire. */
  lemma OvertakenIff(s: State, t: nat, i: nat)
    requires Inv(s) && t < |s.threads| && s.threads[t].Stepping?
    requires i < MAX_RESERVATIONS && Live(s, i, s.threads[t].claim) && !Stale(s.slots[i], s.clock)
    requires s.threads[t].call.Batch? && s.threads[t].i < |s.threads[t].call.steps|
    requires var step := s.threads[t].call.steps[s.threads[t].i]; step.kind != I2C_DELAY && step.hasBuffer
    ensures (exists acts :: Overtaken(s, s.threads[t].call, acts)) <==>
      exists u :: u != t && GapAt(s, u, s.threads[t].call.cap.address)
  {
    var call := s.threads[t].call;
    assert PcOk(s, t);
    if acts :| Overtaken(s, call, acts) {
      var f := Exec(s, acts);
      var m, k :| |s.log| <= m < k < |f.log| && f.log[k].Passed? && f.log[k].call == call &&
        f.log[m].Wire? && f.log[m].call.cap.address == call.cap.address && f.log[m].call.thread != call.thread;
      ExecInv(s, acts);
      ExecExtends(s, acts);
      PassedFacts(f, k);
      assert f.log[s.threads[t].entry] == s.log[s.threads[t].entry];
      assert f.log[k].entry == s.threads[t].entry;
      ForeignTransferIsStale(f, k, m);
      GapTrack(s, acts, m);
      assert GapAt(s, f.log[m].call.thread, call.cap.address);
    }
    if u :| u != t && GapAt(s, u, call.cap.address) {
      Overtake(s, t, i, u);
    }
  }

  /** The check of a batch passes while its claim is live and unexpired. */
  lemma CheckPasses(s: State, t: nat, i: nat)
    requires TableInv(s) && t < |s.threads| && s.threads[t].Stepping? && s.threads[t].call.Batch?
    requires i < MAX_RESERVATIONS && Holds(s.slots[i], s.threads[t].call.cap.address) && s.slots[i].owner == t
    requires !Stale(s.slots[i], s.clock)
    requires var pc := s.threads[t];
      pc.i < |pc.call.steps| && pc.call.steps[pc.i].kind != I2C_DELAY && pc.call.steps[pc.i].hasBuffer
    ensures var f := Apply(s, Advance(t));
      |f.log| == |s.log| + 1 && s.log <= f.log && f.log[|s.log|].Passed? && f.log[|s.log|].call == s.threads[t].call
  {
    var slots := Sweep(s).slots;
    var address := s.threads[t].call.cap.address;
    assert Holds(slots[i], address) && slots[i].owner == t;
    assert forall j :: 0 <= j < MAX_RESERVATIONS && Holds(slots[j], address) ==> Holds(s.slots[j], address);
    assert Find(slots, address) == Some(i);
  }

  /** The run that shows it: the other thread transfers, then the check passes. */
  lemma Overtake(s: State, t: nat, i: nat, u: nat)
    requires Inv(s) && t < |s.threads| && s.threads[t].Stepping?
    requires i < MAX_RESERVATIONS && Live(s, i, s.threads[t].claim) && !Stale(s.slots[i], s.clock)
    requires s.threads[t].call.Batch? && s.threads[t].i < |s.threads[t].call.steps|
    requires var step := s.threads[t].call.steps[s.threads[t].i]; step.kind != I2C_DELAY && step.hasBuffer
    requires u != t && GapAt(s, u, s.threads[t].call.cap.address)
    ensures Overtaken(s, s.threads[t].call, [Transfer(u, true), Advance(t)])
  {
    assert PcOk(s, t) && PcOk(s, u) && SlotOk(s, i);
    var call, acts := s.threads[t].call, [Transfer(u, true), Advance(t)];
    var w := Wire(s.threads[u].call, s.threads[u].i, true, s.threads[u].check);
    var s1 := Apply(s, Transfer(u, true));
    assert s1.log == s.log + [w];
    assert s1.threads[t] == s.threads[t] && s1.slots == s.slots && TableInv(s1) by {
      ApplyInv(s, Transfer(u, true));
    }
    CheckPasses(s1, t, i);
    var s2 := Apply(s1, Advance(t));
    assert s2.log[|s.log|] == s1.log[|s.log|] == w;
    assert acts[1..] == [Advance(t)] && acts[1..][1..] == [];
    assert Exec(s, acts) == Exec(s1, [Advance(t)]) == Exec(s2, []) == s2;
  }
}

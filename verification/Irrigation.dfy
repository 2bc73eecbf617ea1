/** The irrigation loop (src/irrigation.cc) in the device around it: command packets
    arrive at the policy engine and the telemetry loop shares the moisture source and
    the mailbox, between any two steps of a tick. */
module Irrigation {
  import opened Wrappers
  import opened Bytes
  import opened PolicyEngine
  import opened CommandOrder
  import opened Sensors
  import opened Strides

  // ---- The machine -------------------------------------------------------

  /** Where the irrigation thread is: asleep between ticks, holding the n-th reading
      of the source, about to water, inside the pulse, or done with it. */
  datatype Pc =
    | Asleep
    | Holding(n: nat, raw: uint16, ts: uint32)
    | Starting(n: nat, raw: uint16, ts: uint32)
    | Pulsing(n: nat, raw: uint16, ts: uint32)
    | Watered(n: nat, raw: uint16, ts: uint32)

  datatype Event =
    | Arrived(packet: seq<byte>)
    | Sampled(n: nat, raw: uint16)           // the irrigation thread took a reading
    | Shared(n: nat, raw: uint16)            // the telemetry thread took one
    | Judged(raw: uint16, ts: uint32, waters: bool)
    | PumpedOn
    | PumpedOff
    | Stored(ts: uint32)                     // the mailbox was written
    | Reported(ts: uint32)                   // the telemetry thread read it

  /** A finished tick. */
  datatype Round = Round(n: nat, raw: uint16, ts: uint32, waters: bool)

  datatype Node = Node(
    held: uint16, taken: nat, policy: Policy, pumpOn: bool, lastWatering: uint32,
    pc: Pc, rounds: seq<Round>, log: seq<Event>)

  const BOOT := Node(FAKE_FIRST, 0, INITIAL_POLICY, false, 0, Asleep, [], [])

  /** A step: the thread's own five, and what the other threads do. A step whose
      thread is elsewhere changes nothing. */
  datatype Action =
    | Sample(ts: uint32)                     // read the source, then the clock (0 if it fails)
    | Judge                                  // compare with the threshold
    | Start                                  // switch the pump on
    | Finish                                 // switch it off
    | Store                                  // write the mailbox
    | Command(packet: seq<byte>)
    | Share
    | Report

  function Apply(s: Node, a: Action): Node {
    match a
    case Sample(ts) =>
      if !s.pc.Asleep? then s
      else s.(held := Next(s.held), taken := s.taken + 1, pc := Holding(s.taken, s.held, ts),
              log := s.log + [Sampled(s.taken, s.held)])
    case Judge =>
      if !s.pc.Holding? then s
      else if s.pc.raw < s.policy.moistureLow then
        s.(pc := Starting(s.pc.n, s.pc.raw, s.pc.ts), log := s.log + [Judged(s.pc.raw, s.pc.ts, true)])
      else
        s.(pc := Asleep, rounds := s.rounds + [Round(s.pc.n, s.pc.raw, s.pc.ts, false)],
           log := s.log + [Judged(s.pc.raw, s.pc.ts, false)])
    case Start =>
      if !s.pc.Starting? then s
      else s.(pumpOn := true, pc := Pulsing(s.pc.n, s.pc.raw, s.pc.ts), log := s.log + [PumpedOn])
    case Finish =>
      if !s.pc.Pulsing? then s
      else s.(pumpOn := false, pc := Watered(s.pc.n, s.pc.raw, s.pc.ts), log := s.log + [PumpedOff])
    case Store =>
      if !s.pc.Watered? then s
      else s.(lastWatering := s.pc.ts, pc := Asleep,
              rounds := s.rounds + [Round(s.pc.n, s.pc.raw, s.pc.ts, true)],
              log := s.log + [Stored(s.pc.ts)])
    case Command(packet) =>
      s.(policy := Receive(s.policy, Some(packet)).0, log := s.log + [Arrived(packet)])
    case Share =>
      s.(held := Next(s.held), taken := s.taken + 1, log := s.log + [Shared(s.taken, s.held)])
    case Report =>
      s.(log := s.log + [Reported(s.lastWatering)])
  }

  function Run(acts: seq<Action>): Node {
    if acts == [] then BOOT
    else Apply(Run(acts[..|acts| - 1]), acts[|acts| - 1])
  }

  // ---- What the log says -------------------------------------------------

  /** What a log amounts to: the packets that had arrived and the register they make,
      the number of readings taken by either thread, what the mailbox was last given
      (0 if nothing), and the irrigation thread's own events. */
  datatype Summary = Summary(
    packets: seq<seq<byte>>, policy: Policy, takings: nat, stored: uint32, own: seq<Event>)

  predicate IsOwn(e: Event) {
    e.Sampled? || e.Judged? || e.PumpedOn? || e.PumpedOff? || e.Stored?
  }

  function Note(d: Summary, e: Event): Summary {
    Summary(
      if e.Arrived? then d.packets + [e.packet] else d.packets,
      if e.Arrived? then Receive(d.policy, Some(e.packet)).0 else d.policy,
      if e.Sampled? || e.Shared? then d.takings + 1 else d.takings,
      if e.Stored? then e.ts else d.stored,
      if IsOwn(e) then d.own + [e] else d.own)
  }

  function Past(log: seq<Event>): Summary {
    if log == [] then Summary([], INITIAL_POLICY, 0, 0, [])
    else Note(Past(log[..|log| - 1]), log[|log| - 1])
  }

  /** What a tick does, start to end: read, compare, and on watering switch the pump
      on, off again, and leave the timestamp. */
  function Spell(r: Round): seq<Event> {
    [Sampled(r.n, r.raw), Judged(r.raw, r.ts, r.waters)] +
    if r.waters then [PumpedOn, PumpedOff, Stored(r.ts)] else []
  }

  function SpellAll(rounds: seq<Round>): seq<Event> {
    if rounds == [] then []
    else SpellAll(rounds[..|rounds| - 1]) + Spell(rounds[|rounds| - 1])
  }

  /** The tick under way. */
  function Begun(pc: Pc): seq<Event> {
    match pc
    case Asleep => []
    case Holding(n, raw, ts) => [Sampled(n, raw)]
    case Starting(n, raw, ts) => [Sampled(n, raw), Judged(raw, ts, true)]
    case Pulsing(n, raw, ts) => [Sampled(n, raw), Judged(raw, ts, true), PumpedOn]
    case Watered(n, raw, ts) => [Sampled(n, raw), Judged(raw, ts, true), PumpedOn, PumpedOff]
  }

  /** The timestamp of the last tick that watered; 0 if none did. */
  function LastWatered(rounds: seq<Round>): uint32 {
    if rounds == [] then 0
    else
      var r := rounds[|rounds| - 1];
      if r.waters then r.ts else LastWatered(rounds[..|rounds| - 1])
  }

  // ---- The invariant -----------------------------------------------------

  /** The state is what the log and the finished ticks call for. */
  predicate Counts(s: Node, d: Summary) {
    s.taken == d.takings && s.held == Reading(s.taken) && s.policy == d.policy &&
    s.lastWatering == d.stored == LastWatered(s.rounds)
  }

  predicate Ticks(own: seq<Event>, rounds: seq<Round>, pc: Pc) {
    own == SpellAll(rounds) + Begun(pc)
  }

  /** The thread's own events are the finished ticks and the one under way. */
  predicate Whole(s: Node, d: Summary) {
    Ticks(d.own, s.rounds, s.pc) && (s.pumpOn <==> s.pc.Pulsing?)
  }

  /** The event is what the log before it calls for. */
  predicate Follows(d: Summary, e: Event) {
    ((e.Sampled? || e.Shared?) ==> e.n == d.takings && e.raw == Reading(e.n)) &&
    (e.Judged? ==> (e.waters <==> e.raw < d.policy.moistureLow)) &&
    (e.Reported? ==> e.ts == d.stored)
  }

  ghost predicate AllFollow(log: seq<Event>) {
    forall i :: 0 <= i < |log| ==> Follows(Past(log[..i]), log[i])
  }

  ghost predicate NodeInv(s: Node) {
    Counts(s, Past(s.log)) && Whole(s, Past(s.log)) && AllFollow(s.log)
  }

  lemma Extend(log: seq<Event>, e: Event)
    requires AllFollow(log) && Follows(Past(log), e)
    ensures AllFollow(log + [e]) && Past(log + [e]) == Note(Past(log), e)
  {
    var longer := log + [e];
    assert longer[..|log|] == log;
    forall i | 0 <= i < |longer| ensures Follows(Past(longer[..i]), longer[i]) {
      if i < |log| {
        assert longer[..i] == log[..i];
      }
    }
  }

  lemma RoundsGrow(rounds: seq<Round>, r: Round)
    ensures SpellAll(rounds + [r]) == SpellAll(rounds) + Spell(r)
    ensures LastWatered(rounds + [r]) == if r.waters then r.ts else LastWatered(rounds)
  {
    assert (rounds + [r])[..|rounds|] == rounds;
  }

  /** The register is the one the packets leave behind when delivered in order. */
  lemma {:induction false} PolicyIsDelivered(log: seq<Event>)
    ensures Past(log).policy == Deliver(Past(log).packets)
  {
    if log != [] {
      var before, e := Past(log[..|log| - 1]), log[|log| - 1];
      PolicyIsDelivered(log[..|log| - 1]);
      if e.Arrived? {
        assert (before.packets + [e.packet])[..|before.packets|] == before.packets;
      }
    }
  }

  /** The thread moves on inside a tick. */
  lemma TickGoesOn(own: seq<Event>, rounds: seq<Round>, pc: Pc, pc': Pc, e: Event)
    requires Ticks(own, rounds, pc) && Begun(pc') == Begun(pc) + [e]
    ensures Ticks(own + [e], rounds, pc')
  {
  }

  /** The thread ends a tick. */
  lemma TickEnds(own: seq<Event>, rounds: seq<Round>, pc: Pc, r: Round, e: Event)
    requires Ticks(own, rounds, pc) && Spell(r) == Begun(pc) + [e]
    ensures Ticks(own + [e], rounds + [r], Asleep)
  {
    RoundsGrow(rounds, r);
  }

  /** One event more, and the state that goes with it. */
  lemma StepKeeps(s: Node, t: Node, e: Event)
    requires NodeInv(s) && t.log == s.log + [e] && Follows(Past(s.log), e)
    requires Counts(t, Note(Past(s.log), e)) && Whole(t, Note(Past(s.log), e))
    ensures NodeInv(t)
  {
    Extend(s.log, e);
  }

  lemma SampleKeeps(s: Node, ts: uint32)
    requires NodeInv(s) && s.pc.Asleep?
    ensures NodeInv(Apply(s, Sample(ts)))
  {
    var e, t := Sampled(s.taken, s.held), Apply(s, Sample(ts));
    TickGoesOn(Past(s.log).own, s.rounds, s.pc, t.pc, e);
    TakenNext(s, t, Note(Past(s.log), e));
    assert Whole(t, Note(Past(s.log), e));
    StepKeeps(s, t, e);
  }

  lemma TakenNext(s: Node, t: Node, d: Summary)
    requires s.held == Reading(s.taken) && t.held == Next(s.held) && t.taken == s.taken + 1 == d.takings
    requires t.policy == d.policy && t.lastWatering == d.stored == LastWatered(t.rounds)
    ensures Counts(t, d)
  {
  }

  /** A tick ends with its last event: the mailbox has its timestamp if it watered. */
  lemma EndKeeps(s: Node, t: Node, r: Round, e: Event)
    requires NodeInv(s) && !s.pumpOn && Spell(r) == Begun(s.pc) + [e] && Follows(Past(s.log), e)
    requires if r.waters then e == Stored(r.ts) else e.Judged?
    requires t == s.(pc := Asleep, rounds := s.rounds + [r], log := s.log + [e],
                     lastWatering := if r.waters then r.ts else s.lastWatering)
    ensures NodeInv(t)
  {
    TickEnds(Past(s.log).own, s.rounds, s.pc, r, e);
    RoundsGrow(s.rounds, r);
    StepKeeps(s, t, e);
  }

  lemma JudgeKeeps(s: Node)
    requires NodeInv(s) && s.pc.Holding?
    ensures NodeInv(Apply(s, Judge))
  {
    var waters := s.pc.raw < s.policy.moistureLow;
    var e, t := Judged(s.pc.raw, s.pc.ts, waters), Apply(s, Judge);
    if waters {
      TickGoesOn(Past(s.log).own, s.rounds, s.pc, t.pc, e);
      StepKeeps(s, t, e);
    } else {
      EndKeeps(s, t, Round(s.pc.n, s.pc.raw, s.pc.ts, false), e);
    }
  }

  lemma PumpKeeps(s: Node, a: Action, e: Event)
    requires NodeInv(s)
    requires (a == Start && s.pc.Starting? && e == PumpedOn) || (a == Finish && s.pc.Pulsing? && e == PumpedOff)
    ensures NodeInv(Apply(s, a))
  {
    var t := Apply(s, a);
    TickGoesOn(Past(s.log).own, s.rounds, s.pc, t.pc, e);
    StepKeeps(s, t, e);
  }

  lemma StoreKeeps(s: Node)
    requires NodeInv(s) && s.pc.Watered?
    ensures NodeInv(Apply(s, Store))
  {
    EndKeeps(s, Apply(s, Store), Round(s.pc.n, s.pc.raw, s.pc.ts, true), Stored(s.pc.ts));
  }

  lemma OthersKeep(s: Node, a: Action, e: Event)
    requires NodeInv(s)
    requires (a.Command? && e == Arrived(a.packet)) || (a == Share && e == Shared(s.taken, s.held)) ||
      (a == Report && e == Reported(s.lastWatering))
    ensures NodeInv(Apply(s, a))
  {
    StepKeeps(s, Apply(s, a), e);
  }

  lemma ApplyKeeps(s: Node, a: Action)
    requires NodeInv(s)
    ensures NodeInv(Apply(s, a))
  {
    match a
    case Sample(ts) => if s.pc.Asleep? { SampleKeeps(s, ts); }
    case Judge => if s.pc.Holding? { JudgeKeeps(s); }
    case Start => if s.pc.Starting? { PumpKeeps(s, a, PumpedOn); }
    case Finish => if s.pc.Pulsing? { PumpKeeps(s, a, PumpedOff); }
    case Store => if s.pc.Watered? { StoreKeeps(s); }
    case Command(packet) => OthersKeep(s, a, Arrived(packet));
    case Share => OthersKeep(s, a, Shared(s.taken, s.held));
    case Report => OthersKeep(s, a, Reported(s.lastWatering));
  }

  lemma {:induction false} RunKeeps(acts: seq<Action>)
    ensures NodeInv(Run(acts))
  {
    if acts != [] {
      RunKeeps(acts[..|acts| - 1]);
      ApplyKeeps(Run(acts[..|acts| - 1]), acts[|acts| - 1]);
    }
  }

  // ---- Over whole runs ---------------------------------------------------

  /** Whatever else happens, the thread's own events are whole ticks and the one under
      way: each reads, compares, and on watering switches the pump on and off again
      before it leaves the timestamp. The pump is on inside a pulse only, and between
      ticks the mailbox holds the timestamp of the last tick that watered. */
  lemma TicksAreWhole(acts: seq<Action>)
    ensures var s := Run(acts);
      Past(s.log).own == SpellAll(s.rounds) + Begun(s.pc) &&
      (s.pumpOn <==> s.pc.Pulsing?) && s.lastWatering == LastWatered(s.rounds)
  {
    RunKeeps(acts);
  }

  /** A comparison waters iff the reading is below the threshold of the newest command
      that had arrived by then, whichever register reflects that. */
  lemma NewestCommandDecides(acts: seq<Action>, i: nat, p: Policy)
    requires i < |Run(acts).log| && Run(acts).log[i].Judged?
    requires Reflects(Past(Run(acts).log[..i]).packets, p)
    ensures Run(acts).log[i].waters <==> Run(acts).log[i].raw < p.moistureLow
  {
    RunKeeps(acts);
    var packets := Past(Run(acts).log[..i]).packets;
    PolicyIsDelivered(Run(acts).log[..i]);
    FinalReflects(packets);
    ReflectsUnique(packets, p, Deliver(packets));
  }

  /** The two threads share one sequence of readings: the n-th one taken, by either,
      is the n-th of the closed form. */
  lemma ReadingsInOrder(acts: seq<Action>, i: nat)
    requires i < |Run(acts).log| && (Run(acts).log[i].Sampled? || Run(acts).log[i].Shared?)
    ensures var e := Run(acts).log[i];
      e.n == Past(Run(acts).log[..i]).takings && e.raw == Reading(e.n)
  {
    RunKeeps(acts);
  }

  /** Telemetry reports what the mailbox was last given. */
  lemma ReportIsLastStored(acts: seq<Action>, i: nat)
    requires i < |Run(acts).log| && Run(acts).log[i].Reported?
    ensures Run(acts).log[i].ts == Past(Run(acts).log[..i]).stored
  {
    RunKeeps(acts);
  }

  // ---- How often the default threshold waters ----------------------------

  /** No packet of the run is a valid command. */
  predicate NoCommands(acts: seq<Action>) {
    forall i :: 0 <= i < |acts| && acts[i].Command? ==> Decode(acts[i].packet).None?
  }

  predicate NoTelemetry(acts: seq<Action>) {
    forall i :: 0 <= i < |acts| ==> !acts[i].Share?
  }

  /** The readings the finished ticks and the one under way are based on. */
  predicate DefaultJudged(s: Node) {
    s.policy == INITIAL_POLICY && s.held == Reading(s.taken) &&
    (!s.pc.Asleep? ==> s.pc.raw == Reading(s.pc.n)) &&
    (s.pc.Starting? || s.pc.Pulsing? || s.pc.Watered? ==> LowAt(s.pc.n)) &&
    forall k :: 0 <= k < |s.rounds| ==> (s.rounds[k].waters <==> LowAt(s.rounds[k].n))
  }

  lemma DefaultStep(s: Node, a: Action)
    requires DefaultJudged(s) && (a.Command? ==> Decode(a.packet).None?)
    ensures DefaultJudged(Apply(s, a))
  {
    if s.pc.Holding? {
      LowReadings(s.pc.n);
    }
  }

  /** Without a valid command, a tick waters iff it happens to get one of the low
      readings of the source. */
  lemma {:induction false} DefaultWatersIff(acts: seq<Action>)
    requires NoCommands(acts)
    ensures DefaultJudged(Run(acts))
    ensures var rounds := Run(acts).rounds;
      forall k :: 0 <= k < |rounds| ==> (rounds[k].waters <==> LowAt(rounds[k].n))
  {
    if acts != [] {
      var k := |acts| - 1;
      assert NoCommands(acts[..k]);
      DefaultWatersIff(acts[..k]);
      DefaultStep(Run(acts[..k]), acts[k]);
    }
  }

  /** The k-th tick has the k-th reading. */
  predicate InStep(s: Node) {
    s.taken == |s.rounds| + (if s.pc.Asleep? then 0 else 1) &&
    (!s.pc.Asleep? ==> s.pc.n == |s.rounds|) &&
    forall k :: 0 <= k < |s.rounds| ==> s.rounds[k].n == k
  }

  lemma {:induction false} AloneInStep(acts: seq<Action>)
    requires NoTelemetry(acts)
    ensures InStep(Run(acts))
  {
    if acts != [] {
      var k := |acts| - 1;
      assert NoTelemetry(acts[..k]);
      AloneInStep(acts[..k]);
    }
  }

  /** Among the twelve ticks from `n` on, the k-th is the only one that waters. */
  predicate OnlyWatering(rounds: seq<Round>, n: nat, k: nat)
    requires n + 12 <= |rounds|
  {
    n <= k < n + 12 && rounds[k].waters && (forall j :: n <= j < n + 12 && rounds[j].waters ==> j == k)
  }

  /** With the source to itself and no command, the loop waters exactly once in any
      twelve ticks. */
  lemma OnceInTwelve(acts: seq<Action>, n: nat)
    requires NoCommands(acts) && NoTelemetry(acts) && n + 12 <= |Run(acts).rounds|
    ensures exists k :: OnlyWatering(Run(acts).rounds, n, k)
  {
    DefaultWatersIff(acts);
    AloneInStep(acts);
    var rounds := Run(acts).rounds;
    forall j | n <= j < n + 12 ensures rounds[j].waters <==> LowAt(j) {
      assert rounds[j].n == j;
    }
    assert OnlyWatering(rounds, n, NextLow(n));
  }

  // ---- How often it waters when the readings are shared --------------------

  /** The ticks get every m-th reading from the a-th on, whoever gets the others. */
  predicate Steady(rounds: seq<Round>, a: nat, m: nat) {
    forall j :: 0 <= j < |rounds| ==> rounds[j].n == Index(a, m, j)
  }

  /** The two threads compete for the readings. Whatever the interleaving, if the ticks
      get every m-th reading from the a-th on, then with no command they water, at the
      latest in the twelfth, if gcd(m, 12) divides a - 1; and otherwise never. */
  lemma SteadyWatersIff(acts: seq<Action>, a: nat, m: nat)
    requires NoCommands(acts) && Steady(Run(acts).rounds, a, m)
    ensures var rounds := Run(acts).rounds;
      ((a - 1) % Gcd12(m) != 0 ==> forall j :: 0 <= j < |rounds| ==> !rounds[j].waters) &&
      ((a - 1) % Gcd12(m) == 0 && |rounds| >= 12 ==> exists j :: 0 <= j < 12 && rounds[j].waters)
  {
    DefaultWatersIff(acts);
    var rounds := Run(acts).rounds;
    forall j | 0 <= j < |rounds| && rounds[j].waters ensures (a - 1) % Gcd12(m) == 0 {
      HitDivides(a, m, j);
    }
    if (a - 1) % Gcd12(m) == 0 && |rounds| >= 12 {
      var k := DividesHits(a, m);
      assert rounds[k].waters;
    }
  }

  function Shares(n: nat): seq<Action> {
    seq(n, _ => Share)
  }

  function TickMoves(ts: uint32): seq<Action> {
    [Sample(ts), Judge, Start, Finish, Store]
  }

  /** Telemetry takes `a` readings, then `m - 1` after every tick. */
  function Paced(a: nat, m: nat, k: nat, ts: uint32): seq<Action>
    requires m > 0
  {
    if k == 0 then Shares(a) else Paced(a, m, k - 1, ts) + TickMoves(ts) + Shares(m - 1)
  }

  lemma RunOne(acts: seq<Action>, a: Action)
    ensures Run(acts + [a]) == Apply(Run(acts), a)
  {
    assert (acts + [a])[..|acts|] == acts;
  }

  lemma {:induction false} RunShares(acts: seq<Action>, n: nat)
    ensures var s, t := Run(acts), Run(acts + Shares(n));
      t.taken == s.taken + n && t.rounds == s.rounds && t.pc == s.pc && t.pumpOn == s.pumpOn
  {
    if n == 0 {
      assert acts + Shares(0) == acts;
    } else {
      RunShares(acts, n - 1);
      assert acts + Shares(n) == acts + Shares(n - 1) + [Share];
      RunOne(acts + Shares(n - 1), Share);
    }
  }

  lemma RunTick(acts: seq<Action>, ts: uint32)
    ensures Run(acts + TickMoves(ts)) == Tick(Run(acts), ts)
  {
    RunOne(acts, Sample(ts));
    RunOne(acts + [Sample(ts)], Judge);
    RunOne(acts + [Sample(ts)] + [Judge], Start);
    RunOne(acts + [Sample(ts)] + [Judge] + [Start], Finish);
    RunOne(acts + [Sample(ts)] + [Judge] + [Start] + [Finish], Store);
    assert acts + TickMoves(ts) == acts + [Sample(ts)] + [Judge] + [Start] + [Finish] + [Store];
  }

  lemma SteadyGrows(rounds: seq<Round>, r: Round, a: nat, m: nat)
    requires Steady(rounds, a, m) && r.n == Index(a, m, |rounds|)
    ensures Steady(rounds + [r], a, m)
  {
  }

  lemma {:induction false} PacedHasNoCommands(a: nat, m: nat, k: nat, ts: uint32)
    requires m > 0
    ensures NoCommands(Paced(a, m, k, ts))
  {
    if k > 0 {
      PacedHasNoCommands(a, m, k - 1, ts);
    }
  }

  /** `k` ticks are over, and telemetry has what comes before the next one. */
  predicate PacedState(s: Node, a: nat, m: nat, k: nat) {
    |s.rounds| == k && Steady(s.rounds, a, m) && s.taken == Index(a, m, k) && s.pc.Asleep? && !s.pumpOn
  }

  /** Such runs exist, for every start, stride and length. */
  lemma {:induction false} PacedIsSteady(a: nat, m: nat, k: nat, ts: uint32)
    requires m > 0
    ensures PacedState(Run(Paced(a, m, k, ts)), a, m, k)
  {
    if k == 0 {
      PacedStart(a, m);
    } else {
      PacedIsSteady(a, m, k - 1, ts);
      PacedStep(Paced(a, m, k - 1, ts), a, m, k - 1, ts);
    }
  }

  lemma PacedStart(a: nat, m: nat)
    ensures PacedState(Run(Shares(a)), a, m, 0)
  {
    assert [] + Shares(a) == Shares(a);
    RunShares([], a);
  }

  lemma PacedStep(before: seq<Action>, a: nat, m: nat, k: nat, ts: uint32)
    requires m > 0 && PacedState(Run(before), a, m, k)
    ensures PacedState(Run(before + TickMoves(ts) + Shares(m - 1)), a, m, k + 1)
  {
    var s := Run(before);
    RunTick(before, ts);
    TickMeans(s, ts);
    SteadyGrows(s.rounds, Round(s.taken, s.held, ts, s.held < s.policy.moistureLow), a, m);
    RunShares(before + TickMoves(ts), m - 1);
    IndexNext(a, m, k);
  }

  lemma EverySecond(acts: seq<Action>, a: nat, k: nat)
    requires NoCommands(acts) && PacedState(Run(acts), a, 2, k)
    ensures var rounds := Run(acts).rounds;
      |rounds| == k &&
      (a % 2 == 0 ==> forall j :: 0 <= j < k ==> !rounds[j].waters) &&
      (a % 2 == 1 && k >= 12 ==> exists j :: 0 <= j < 12 && rounds[j].waters)
  {
    SteadyWatersIff(acts, a, 2);
    assert Gcd12(2) == 2;
  }

  /** Taking turns: with the irrigation loop first, or any even number of telemetry
      readings before it, the plant is never watered, however long the run; with an odd
      number it is, within twelve ticks. */
  lemma TurnsWaterIff(a: nat, k: nat, ts: uint32)
    ensures var rounds := Run(Paced(a, 2, k, ts)).rounds;
      |rounds| == k &&
      (a % 2 == 0 ==> forall j :: 0 <= j < k ==> !rounds[j].waters) &&
      (a % 2 == 1 && k >= 12 ==> exists j :: 0 <= j < 12 && rounds[j].waters)
  {
    PacedIsSteady(a, 2, k, ts);
    PacedHasNoCommands(a, 2, k, ts);
    EverySecond(Paced(a, 2, k, ts), a, k);
  }

  // ---- The loop body -----------------------------------------------------

  /** One tick that nothing interrupts. */
  function Tick(s: Node, ts: uint32): Node {
    Apply(Apply(Apply(Apply(Apply(s, Sample(ts)), Judge), Start), Finish), Store)
  }

  /** A tick in one piece: what it leaves behind. */
  lemma TickMeans(s: Node, ts: uint32)
    requires s.pc.Asleep? && !s.pumpOn
    ensures var t := Tick(s, ts);
      t.pc.Asleep? && !t.pumpOn && t.policy == s.policy && t.held == Next(s.held) && t.taken == s.taken + 1 &&
      t.rounds == s.rounds + [Round(s.taken, s.held, ts, s.held < s.policy.moistureLow)] &&
      t.lastWatering == if s.held < s.policy.moistureLow then ts else s.lastWatering
  {
  }

  /** What the pump did over the finished ticks. */
  function Pulses(rounds: seq<Round>): seq<PumpAction> {
    if rounds == [] then []
    else Pulses(rounds[..|rounds| - 1]) + if rounds[|rounds| - 1].waters then PULSE else []
  }

  function Waterings(rounds: seq<Round>): nat {
    if rounds == [] then 0
    else Waterings(rounds[..|rounds| - 1]) + if rounds[|rounds| - 1].waters then 1 else 0
  }

  /** Over any series of ticks the pump is on for 2500 ms per watering, is switched on
      once for each, and is off at the end. */
  lemma {:induction false} PumpTime(rounds: seq<Round>)
    ensures Pumped(Pulses(rounds)) == Pumping(false, 2500 * Waterings(rounds), Waterings(rounds))
  {
    if rounds != [] {
      var k := |rounds| - 1;
      PumpTime(rounds[..k]);
      if rounds[k].waters {
        PulseWaters(Pulses(rounds[..k]));
      } else {
        assert Pulses(rounds) == Pulses(rounds[..k]);
      }
    }
  }

  /** So TickOnce below keeps the pump's actions in step with the ticks. */
  lemma TickPumps(s: Node, ts: uint32)
    requires s.pc.Asleep? && !s.pumpOn
    ensures Pulses(Tick(s, ts).rounds) == Pulses(s.rounds) + if s.held < s.policy.moistureLow then PULSE else []
  {
    TickMeans(s, ts);
    var r := Round(s.taken, s.held, ts, s.held < s.policy.moistureLow);
    assert (s.rounds + [r])[..|s.rounds|] == s.rounds;
  }

  class Loop {
    const source: MoistureSource
    const engine: Engine
    var lastWatering: uint32
    ghost var rounds: seq<Round>

    constructor (source: MoistureSource, engine: Engine)
      ensures this.source == source && this.engine == engine && lastWatering == 0 && rounds == []
    {
      this.source, this.engine, lastWatering, rounds := source, engine, 0, [];
    }

    /** The machine state these objects stand for, between ticks. */
    ghost function Abstract(): Node
      reads this, source, engine
    {
      Node(source.held, source.taken, engine.State(), engine.pumpOn, lastWatering, Asleep, rounds, [])
    }

    /** One round of irrigation_loop; the reading itself cannot fail. Refines Tick. */
    method TickOnce(ts: uint32)
      requires source.Valid() && !engine.pumpOn
      modifies this`lastWatering, this`rounds, source, engine`pumpOn, engine`actions
      ensures source.Valid() && !engine.pumpOn
      ensures Abstract() == Tick(old(Abstract()), ts).(log := [])
      ensures engine.actions == old(engine.actions) +
        if old(source.held) < engine.moistureLow then PULSE else []
    {
      TickMeans(Abstract(), ts);
      ghost var n, held := source.taken, source.held;
      var raw := source.ReadRaw();
      var verdict := engine.Evaluate(raw);
      if verdict == PumpActivation {
        lastWatering := ts;
      }
      rounds := rounds + [Round(n, raw, ts, verdict == PumpActivation)];
    }

    /** irrigation_get_last_watering; the out-pointer is null or not. */
    method GetLastWatering(wanted: bool) returns (out: Option<uint32>)
      ensures out == if wanted then Some(lastWatering) else None
    {
      out := if wanted then Some(lastWatering) else None;
    }
  }
}

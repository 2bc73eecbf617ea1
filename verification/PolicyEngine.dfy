/** The watering policy (src/policy_engine.cc): the hand-written command parser,
    the timestamp-ordered threshold register, and the watering decision. */
module PolicyEngine {
  import opened Wrappers
  import opened Bytes
  import opened Decimal

  const TIMESTAMP_KEY := Ascii("{\"timestamp\":")
  const THRESHOLD_KEY := Ascii(",\"threshold\":")
  const CLOSING_BRACE: byte := 125

  // ---- The parser --------------------------------------------------------

  /** A parsed field: its value and where the text goes on. */
  datatype Field = Field(value: uint32, end: nat)

  /** A key followed by a maximal, non-empty run of digits worth at most 2^32 - 1. */
  function ParseField(buf: seq<byte>, pos: nat, key: seq<byte>): (r: Option<Field>)
    requires pos <= |buf|
    ensures r.Some? ==> pos + |key| < r.value.end <= |buf|
  {
    if !KeyAt(buf, pos, key) then None
    else
      var start := pos + |key|;
      var end := RunEnd(buf, start);
      if end == start || Value(buf[start..end]) > UINT32_MAX then None
      else Some(Field(Value(buf[start..end]), end))
  }

  /** The accumulation loop with its overflow guard. The accumulator has the
      width of the firmware's, so no iteration wraps around. */
  method ParseUintField(buf: seq<byte>, pos: nat, key: seq<byte>) returns (r: Option<Field>)
    requires pos <= |buf|
    ensures r == ParseField(buf, pos, key)
  {
    if pos + |key| > |buf| || buf[pos..pos + |key|] != key {
      return None;
    }
    var start := pos + |key|;
    if start >= |buf| || !IsDigit(buf[start]) {
      return None;
    }
    var value: uint32 := 0;
    var at := start;
    ghost var end := RunEnd(buf, start);
    while at < |buf| && IsDigit(buf[at])
      invariant start <= at <= end && RunEnd(buf, at) == end
      invariant AllDigits(buf[start..at]) && value == Value(buf[start..at])
    {
      var digit := buf[at] - 48;
      ExtendRun(buf, start, at);
      if value > (UINT32_MAX - digit) / 10 {
        ghost var run := buf[start..end];
        ValueMonotone(run, at + 1 - start);
        assert run[..at + 1 - start] == buf[start..at + 1];
        return None;
      }
      value := value * 10 + digit;
      at := at + 1;
    }
    r := Some(Field(value, at));
  }

  lemma ExtendRun(buf: seq<byte>, start: nat, at: nat)
    requires start <= at < |buf| && AllDigits(buf[start..at]) && IsDigit(buf[at])
    ensures AllDigits(buf[start..at + 1])
    ensures Value(buf[start..at + 1]) == Value(buf[start..at]) * 10 + (buf[at] - 48)
  {
    assert buf[start..at + 1] == buf[start..at] + [buf[at]];
    assert buf[start..at + 1][..at - start] == buf[start..at];
  }

  // ---- The accepted language ---------------------------------------------

  datatype Command = Command(timestamp: uint32, threshold: uint16)

  /** What a packet that passes all syntax and range checks says. */
  function Decode(packet: seq<byte>): Option<Command> {
    match ParseField(packet, 0, TIMESTAMP_KEY)
    case None => None
    case Some(ts) =>
      match ParseField(packet, ts.end, THRESHOLD_KEY)
      case None => None
      case Some(th) =>
        if th.end >= |packet| || packet[th.end] != CLOSING_BRACE || th.value > UINT16_MAX then None
        else Some(Command(ts.value, th.value))
  }

  /** The two-field form, with any number of leading zeros. */
  predicate Spells(text: seq<byte>, d: seq<byte>, e: seq<byte>, c: Command) {
    text == TIMESTAMP_KEY + d + (THRESHOLD_KEY + e + [CLOSING_BRACE]) &&
    d != [] && AllDigits(d) && Value(d) == c.timestamp &&
    e != [] && AllDigits(e) && Value(e) == c.threshold
  }

  /** Some prefix of the packet is the two-field form of `c`. */
  ghost predicate Accepts(packet: seq<byte>, c: Command) {
    exists k, d, e :: 0 <= k <= |packet| && Spells(packet[..k], d, e, c)
  }

  /** At `pos`, `s` has the key and then exactly the digits `d`. */
  predicate FieldAt(s: seq<byte>, pos: nat, key: seq<byte>, d: seq<byte>) {
    KeyAt(s, pos, key) && OccursAt(s, d, pos + |key|) &&
    (pos + |key| + |d| < |s| ==> !IsDigit(s[pos + |key| + |d|]))
  }

  lemma FieldInConcat(s: seq<byte>, a: seq<byte>, key: seq<byte>, d: seq<byte>, c: seq<byte>)
    requires s == a + key + d + c && (c != [] ==> !IsDigit(c[0]))
    ensures FieldAt(s, |a|, key, d)
  {
    assert s[|a|..|a| + |key|] == key;
    assert s[|a| + |key|..|a| + |key| + |d|] == d;
  }

  lemma ParseFieldGives(s: seq<byte>, pos: nat, key: seq<byte>, end: nat)
    requires KeyAt(s, pos, key) && pos + |key| < end <= |s| && AllDigits(s[pos + |key|..end])
    requires (end < |s| ==> !IsDigit(s[end])) && Value(s[pos + |key|..end]) <= UINT32_MAX
    ensures ParseField(s, pos, key) == Some(Field(Value(s[pos + |key|..end]), end))
  {
    RunEndUnique(s, pos + |key|, end);
  }

  lemma {:induction false} ParseFieldAt(s: seq<byte>, pos: nat, key: seq<byte>, d: seq<byte>)
    requires FieldAt(s, pos, key, d) && d != [] && AllDigits(d) && Value(d) <= UINT32_MAX
    ensures ParseField(s, pos, key) == Some(Field(Value(d), pos + |key| + |d|))
  {
    var start := pos + |key|;
    var end := start + |d|;
    assert s[start..end] == d;
    ParseFieldGives(s, pos, key, end);
  }

  /** The first field of a packet `rest` goes on after. */
  lemma FirstField(packet: seq<byte>, d: seq<byte>, rest: seq<byte>)
    requires packet == TIMESTAMP_KEY + d + rest && d != [] && AllDigits(d) && Value(d) <= UINT32_MAX
    requires rest != [] && !IsDigit(rest[0])
    ensures ParseField(packet, 0, TIMESTAMP_KEY) == Some(Field(Value(d), |TIMESTAMP_KEY + d|))
  {
    assert packet == [] + TIMESTAMP_KEY + d + rest;
    FieldInConcat(packet, [], TIMESTAMP_KEY, d, rest);
    ParseFieldAt(packet, 0, TIMESTAMP_KEY, d);
  }

  /** The second field, and the brace behind it. */
  lemma {:induction false} SecondField(packet: seq<byte>, before: seq<byte>, e: seq<byte>, rest: seq<byte>)
    requires packet == before + THRESHOLD_KEY + e + ([CLOSING_BRACE] + rest)
    requires e != [] && AllDigits(e) && Value(e) <= UINT32_MAX
    ensures var end := |before| + |THRESHOLD_KEY| + |e|;
      ParseField(packet, |before|, THRESHOLD_KEY) == Some(Field(Value(e), end)) &&
      end < |packet| && packet[end] == CLOSING_BRACE
  {
    FieldInConcat(packet, before, THRESHOLD_KEY, e, [CLOSING_BRACE] + rest);
    ParseFieldAt(packet, |before|, THRESHOLD_KEY, e);
  }

  lemma DecodeSpelled(packet: seq<byte>, k: nat, d: seq<byte>, e: seq<byte>, c: Command)
    requires k <= |packet| && Spells(packet[..k], d, e, c)
    ensures Decode(packet) == Some(c)
  {
    var rest := packet[k..];
    var tail := THRESHOLD_KEY + e + [CLOSING_BRACE] + rest;
    assert packet == packet[..k] + rest;
    assert packet == TIMESTAMP_KEY + d + tail;
    assert tail[0] == THRESHOLD_KEY[0] == 44;
    FirstField(packet, d, tail);
    var before := TIMESTAMP_KEY + d;
    assert packet == before + THRESHOLD_KEY + e + ([CLOSING_BRACE] + rest);
    SecondField(packet, before, e, rest);
  }

  lemma FivePieces(s: seq<byte>, i: nat, j: nat, k: nat, l: nat)
    requires i <= j <= k <= l < |s|
    ensures s[..l + 1] == s[0..i] + s[i..j] + (s[j..k] + s[k..l] + [s[l]])
  {
  }

  lemma DecodedIsSpelled(packet: seq<byte>, c: Command)
    requires Decode(packet) == Some(c)
    ensures Accepts(packet, c)
  {
    var ts := ParseField(packet, 0, TIMESTAMP_KEY).value;
    var th := ParseField(packet, ts.end, THRESHOLD_KEY).value;
    var d, e := packet[|TIMESTAMP_KEY|..ts.end], packet[ts.end + |THRESHOLD_KEY|..th.end];
    FivePieces(packet, |TIMESTAMP_KEY|, ts.end, ts.end + |THRESHOLD_KEY|, th.end);
    assert Spells(packet[..th.end + 1], d, e, c);
  }

  /** The accepted language, exactly: a packet decodes to `c` if and only if some
      prefix of it is the two-field form of `c`. What follows is ignored, and no
      packet has two readings. */
  lemma AcceptedLanguage(packet: seq<byte>, c: Command)
    ensures Decode(packet) == Some(c) <==> Accepts(packet, c)
  {
    if Decode(packet) == Some(c) {
      DecodedIsSpelled(packet, c);
    }
    if k, d, e :| 0 <= k <= |packet| && Spells(packet[..k], d, e, c) {
      DecodeSpelled(packet, k, d, e, c);
    }
  }

  // ---- The register ------------------------------------------------------

  datatype Policy = Policy(moistureLow: uint16, lastCommandTimestamp: uint32)

  const INITIAL_POLICY := Policy(300, 0)

  datatype Reply = Applied | Invalid | Already

  /** One command delivery; None is the null pointer. */
  function Receive(p: Policy, packet: Option<seq<byte>>): (Policy, Reply) {
    if packet.None? || Decode(packet.value).None? then (p, Invalid)
    else
      var c := Decode(packet.value).value;
      if c.timestamp <= p.lastCommandTimestamp then (p, Already)
      else (Policy(c.threshold, c.timestamp), Applied)
  }

  datatype Verdict = NoAction | PumpActivation

  /** What the pump driver and the wait between its calls do, in order. */
  datatype PumpAction = On | Off | WaitMs(ms: nat)

  const PULSE: seq<PumpAction> := [On, WaitMs(2500), Off]

  /** What a series of actions leaves behind: whether the pump is on, for how long it
      was on altogether, and how often it was switched on. */
  datatype Pumping = Pumping(on: bool, onMs: nat, starts: nat)

  function Pumped(actions: seq<PumpAction>): Pumping {
    if actions == [] then Pumping(false, 0, 0)
    else
      var p := Pumped(actions[..|actions| - 1]);
      match actions[|actions| - 1]
      case On => Pumping(true, p.onMs, p.starts + if p.on then 0 else 1)
      case Off => p.(on := false)
      case WaitMs(ms) => if p.on then p.(onMs := p.onMs + ms) else p
  }

  lemma {:induction false} PumpedNext(actions: seq<PumpAction>, a: PumpAction)
    ensures Pumped(actions + [a]) ==
      var p := Pumped(actions);
      match a
      case On => Pumping(true, p.onMs, p.starts + if p.on then 0 else 1)
      case Off => p.(on := false)
      case WaitMs(ms) => if p.on then p.(onMs := p.onMs + ms) else p
  {
    assert (actions + [a])[..|actions|] == actions;
  }

  /** Whatever went before, as long as the pump was off: a watering switches it on once,
      for 2500 ms, and leaves it off. */
  lemma PulseWaters(actions: seq<PumpAction>)
    requires !Pumped(actions).on
    ensures var p := Pumped(actions);
      Pumped(actions + PULSE) == Pumping(false, p.onMs + 2500, p.starts + 1)
  {
    PumpedNext(actions, On);
    PumpedNext(actions + [On], WaitMs(2500));
    PumpedNext(actions + [On] + [WaitMs(2500)], Off);
    assert actions + PULSE == actions + [On] + [WaitMs(2500)] + [Off];
  }

  class Engine {
    var moistureLow: uint16
    var lastCommandTimestamp: uint32
    var pumpOn: bool
    ghost var actions: seq<PumpAction>

    constructor ()
      ensures State() == INITIAL_POLICY && !pumpOn && actions == []
    {
      moistureLow, lastCommandTimestamp, pumpOn, actions := 300, 0, false, [];
    }

    ghost function State(): Policy
      reads this
    {
      Policy(moistureLow, lastCommandTimestamp)
    }

    method UpdateThreshold(packet: Option<seq<byte>>) returns (reply: Reply)
      modifies this`moistureLow, this`lastCommandTimestamp
      ensures (State(), reply) == Receive(old(State()), packet)
      ensures reply != Applied ==> State() == old(State())
      ensures reply == Applied ==> lastCommandTimestamp > old(lastCommandTimestamp)
      ensures reply == Applied ==>
        packet.Some? && Accepts(packet.value, Command(lastCommandTimestamp, moistureLow))
    {
      if packet.None? {
        return Invalid;
      }
      var text := packet.value;
      var ts := ParseUintField(text, 0, TIMESTAMP_KEY);
      if ts.None? {
        return Invalid;
      }
      var th := ParseUintField(text, ts.value.end, THRESHOLD_KEY);
      if th.None? {
        return Invalid;
      }
      if th.value.end >= |text| || text[th.value.end] != CLOSING_BRACE {
        return Invalid;
      }
      if th.value.value > UINT16_MAX {
        return Invalid;
      }
      if ts.value.value <= lastCommandTimestamp {
        return Already;
      }
      moistureLow := th.value.value;
      lastCommandTimestamp := ts.value.value;
      AcceptedLanguage(text, Command(lastCommandTimestamp, moistureLow));
      reply := Applied;
    }

    method PumpOn()
      modifies this`pumpOn, this`actions
      ensures pumpOn && actions == old(actions) + [On]
    {
      pumpOn := true;
      actions := actions + [On];
    }

    method PumpOff()
      modifies this`pumpOn, this`actions
      ensures !pumpOn && actions == old(actions) + [Off]
    {
      pumpOn := false;
      actions := actions + [Off];
    }

    /** policy_evaluate: one whole watering pulse, or nothing. */
    method Evaluate(moistureRaw: uint16) returns (verdict: Verdict)
      modifies this`pumpOn, this`actions
      ensures verdict == PumpActivation <==> moistureRaw < moistureLow
      ensures verdict == PumpActivation ==> !pumpOn && actions == old(actions) + PULSE
      ensures verdict == NoAction ==> pumpOn == old(pumpOn) && actions == old(actions)
    {
      if moistureRaw < moistureLow {
        PumpOn();
        actions := actions + [WaitMs(2500)];
        PumpOff();
        return PumpActivation;
      }
      verdict := NoAction;
    }
  }
}

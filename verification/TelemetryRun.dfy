/** The telemetry loop of the device (src/telemetry.cc) together with the message
    callback and the publisher of src/comms.cc, as a machine: in every run, sensor
    data leaves the device only after a session and an attestation reply. */
module TelemetryRun {
  import opened Wrappers
  import opened Bytes
  import opened Frames
  import opened TelemetryJson
  import opened CryptoSession
  import opened CharterCrypto
  import opened Attestation
  import opened AttestationTexts

  datatype Event =
    | SessionUp(txKey: Key)                  // crypto_init_session succeeded
    | Kept(payload: seq<byte>)               // the mailbox took a message
    | Handed(payload: seq<byte>)             // the loop drained it
    | Asked(query: seq<byte>)                // the attestation query was published
    | Published(reading: SensorReading, frame: seq<byte>)  // telemetry left the device

  datatype Device = Device(
    session: Session, slot: Slot, attested: bool, log: seq<Event>)

  const BOOT := Device(NO_SESSION, None, false, [])

  datatype Action =
    | Exchange(kx: Option<(Key, Key)>)
    | Arrives(payload: seq<byte>)            // on the attestation topic
    | DrainOne
    | Ask(evidence: Evidence)
    | Tick(reading: SensorReading, connected: bool, entropy: Option<nat>)

  function Record(d: Device, e: Event): Device {
    d.(log := d.log + [e])
  }

  /** The gated branch of the loop: nothing at all without attestation, nothing for
      an invalid reading, nothing without a connection or a session. */
  function Publish(box: SecretBox, d: Device, reading: SensorReading, connected: bool, entropy: Option<nat>): Device {
    if !d.attested || !reading.valid || !connected then d
    else
      var (s, r) := Seal(box, d.session, Json(reading), entropy);
      match r
      case Done(frame) => Record(d.(session := s), Published(reading, frame))
      case Failed(_) => d.(session := s)
  }

  function Apply(box: SecretBox, d: Device, a: Action): Device {
    match a
    case Exchange(kx) =>
      var s := Init(d.session, kx).0;
      if kx.Some? then Record(d.(session := s), SessionUp(s.txKey)) else d
    case Arrives(payload) =>
      var slot := Post(d.slot, payload);
      if d.slot.None? && slot.Some? then Record(d.(slot := slot), Kept(payload)) else d.(slot := slot)
    case DrainOne =>
      (match d.slot
       case None => d
       case Some(m) => Record(d.(slot := None, attested := d.attested || IsYes(m)), Handed(m)))
    case Ask(evidence) =>
      var query := Query(evidence);
      if d.attested || |query| > REQUEST_MAX then d else Record(d, Asked(query))
    case Tick(reading, connected, entropy) => Publish(box, d, reading, connected, entropy)
  }

  function Run(box: SecretBox, acts: seq<Action>): Device {
    if acts == [] then BOOT
    else Apply(box, Run(box, acts[..|acts| - 1]), acts[|acts| - 1])
  }

  // ---- What the log knows ------------------------------------------------

  ghost predicate SessionBefore(log: seq<Event>, k: nat) {
    exists i :: 0 <= i < k && i < |log| && log[i].SessionUp?
  }

  /** A confirming message was kept at `i` and drained at `j`. */
  predicate ConfirmedBy(log: seq<Event>, i: int, j: int) {
    0 <= i < j < |log| && log[i].Kept? && log[j].Handed? && log[i].payload == log[j].payload &&
    Acceptable(log[i].payload) && IsYes(log[i].payload)
  }

  ghost predicate ConfirmedBefore(log: seq<Event>, k: nat) {
    exists i, j :: ConfirmedBy(log, i, j) && j < k
  }

  function KeptIn(log: seq<Event>): seq<seq<byte>> {
    if log == [] then []
    else KeptIn(log[..|log| - 1]) + (if log[|log| - 1].Kept? then [log[|log| - 1].payload] else [])
  }

  function HandedIn(log: seq<Event>): seq<seq<byte>> {
    if log == [] then []
    else HandedIn(log[..|log| - 1]) + (if log[|log| - 1].Handed? then [log[|log| - 1].payload] else [])
  }

  lemma LogGrows(log: seq<Event>, e: Event)
    ensures KeptIn(log + [e]) == KeptIn(log) + (if e.Kept? then [e.payload] else [])
    ensures HandedIn(log + [e]) == HandedIn(log) + (if e.Handed? then [e.payload] else [])
  {
    assert (log + [e])[..|log|] == log;
  }

  // ---- The invariant -----------------------------------------------------

  ghost predicate GateInv(d: Device) {
    (d.session.ready ==> SessionBefore(d.log, |d.log|)) &&
    (d.attested ==> ConfirmedBefore(d.log, |d.log|)) &&
    (d.slot.Some? ==> SlotOrigin(d)) &&
    (forall k :: 0 <= k < |d.log| && d.log[k].Published? ==>
      SessionBefore(d.log, k) && ConfirmedBefore(d.log, k) && d.log[k].reading.valid)
  }

  /** What waits in the slot was kept, and is acceptable. */
  ghost predicate SlotOrigin(d: Device)
    requires d.slot.Some?
  {
    exists i :: 0 <= i < |d.log| && KeptAt(d.log, i, d.slot.value)
  }

  predicate KeptAt(log: seq<Event>, i: int, m: seq<byte>) {
    0 <= i < |log| && log[i] == Kept(m) && Acceptable(m)
  }

  lemma BeforeIsStable(log: seq<Event>, e: Event, k: nat)
    requires k <= |log|
    ensures SessionBefore(log, k) ==> SessionBefore(log + [e], k)
    ensures ConfirmedBefore(log, k) ==> ConfirmedBefore(log + [e], k)
  {
    if SessionBefore(log, k) {
      var i :| 0 <= i < k && i < |log| && log[i].SessionUp?;
      assert (log + [e])[i].SessionUp?;
    }
    if ConfirmedBefore(log, k) {
      var i, j :| ConfirmedBy(log, i, j) && j < k;
      assert ConfirmedBy(log + [e], i, j);
    }
  }

  lemma Widen(log: seq<Event>, k: nat)
    requires k <= |log|
    ensures SessionBefore(log, k) ==> SessionBefore(log, |log|)
    ensures ConfirmedBefore(log, k) ==> ConfirmedBefore(log, |log|)
  {
  }

  /** Recording an event keeps everything the log already promises. */
  lemma RecordKeeps(d: Device, e: Event)
    requires GateInv(d)
    requires e.Published? ==> SessionBefore(d.log, |d.log|) && ConfirmedBefore(d.log, |d.log|) && e.reading.valid
    ensures GateInv(Record(d, e))
  {
    var log := d.log + [e];
    BeforeIsStable(d.log, e, |d.log|);
    Widen(log, |d.log|);
    forall k | 0 <= k < |log| && log[k].Published?
      ensures SessionBefore(log, k) && ConfirmedBefore(log, k) && log[k].reading.valid
    {
      BeforeIsStable(d.log, e, k);
    }
    if d.slot.Some? {
      var i :| 0 <= i < |d.log| && KeptAt(d.log, i, d.slot.value);
      assert KeptAt(log, i, d.slot.value);
    }
  }

  lemma ExchangeKeeps(d: Device, kx: (Key, Key), key: Key)
    requires GateInv(d)
    ensures GateInv(Record(d.(session := Init(d.session, Some(kx)).0), SessionUp(key)))
  {
    RecordKeeps(d, SessionUp(key));
    var log := d.log + [SessionUp(key)];
    assert log[|d.log|].SessionUp?;
    assert SessionBefore(log, |log|);
  }

  lemma KeepKeeps(d: Device, payload: seq<byte>)
    requires GateInv(d) && d.slot.None? && Acceptable(payload)
    ensures GateInv(Record(d.(slot := Some(payload)), Kept(payload)))
  {
    RecordKeeps(d, Kept(payload));
    assert KeptAt(d.log + [Kept(payload)], |d.log|, payload);
  }

  lemma DrainKeeps(d: Device)
    requires GateInv(d) && d.slot.Some?
    ensures GateInv(Record(d.(slot := None, attested := d.attested || IsYes(d.slot.value)), Handed(d.slot.value)))
  {
    var m := d.slot.value;
    RecordKeeps(d.(slot := None), Handed(m));
    var log := d.log + [Handed(m)];
    var i :| 0 <= i < |d.log| && KeptAt(d.log, i, m);
    if IsYes(m) {
      assert ConfirmedBy(log, i, |d.log|);
    }
  }

  lemma ApplyKeeps(box: SecretBox, d: Device, a: Action)
    requires GateInv(d)
    ensures GateInv(Apply(box, d, a))
    ensures d.attested ==> Apply(box, d, a).attested
  {
    match a
    case Exchange(kx) => if kx.Some? { ExchangeKeeps(d, kx.value, Init(d.session, kx).0.txKey); }
    case Arrives(payload) => if d.slot.None? && Acceptable(payload) { KeepKeeps(d, payload); }
    case DrainOne => if d.slot.Some? { DrainKeeps(d); }
    case Ask(evidence) => RecordKeeps(d, Asked(Query(evidence)));
    case Tick(reading, connected, entropy) =>
      if d.attested && reading.valid && connected {
        var (s, r) := Seal(box, d.session, Json(reading), entropy);
        if r.Done? {
          RecordKeeps(d, Published(reading, r.value));
        }
      }
  }

  lemma {:induction false} RunKeeps(box: SecretBox, acts: seq<Action>)
    ensures GateInv(Run(box, acts))
  {
    if acts != [] {
      RunKeeps(box, acts[..|acts| - 1]);
      ApplyKeeps(box, Run(box, acts[..|acts| - 1]), acts[|acts| - 1]);
    }
  }

  // ---- Over whole runs ---------------------------------------------------

  /** The gate: before anything is published, a key exchange succeeded, and a
      message without the query marker and with a confirmation was kept, and then
      drained. */
  lemma NothingBeforeAttestation(box: SecretBox, acts: seq<Action>, k: nat)
    requires k < |Run(box, acts).log| && Run(box, acts).log[k].Published?
    ensures SessionBefore(Run(box, acts).log, k) && ConfirmedBefore(Run(box, acts).log, k)
    ensures Run(box, acts).log[k].reading.valid
  {
    RunKeeps(box, acts);
  }

  /** The latch never opens again. */
  lemma {:induction false} AttestedStays(box: SecretBox, acts: seq<Action>, more: seq<Action>)
    requires Run(box, acts).attested
    ensures Run(box, acts + more).attested
    decreases |more|
  {
    if more == [] {
      assert acts + more == acts;
    } else {
      var k := |more| - 1;
      AttestedStays(box, acts, more[..k]);
      assert (acts + more)[..|acts + more| - 1] == acts + more[..k];
      RunKeeps(box, acts + more[..k]);
      ApplyKeeps(box, Run(box, acts + more[..k]), more[k]);
    }
  }

  /** What was kept is what was drained, plus what is waiting. */
  predicate Queue(log: seq<Event>, slot: Slot) {
    KeptIn(log) == HandedIn(log) + if slot.Some? then [slot.value] else []
  }

  /** The mailbox is a queue of one: accepted messages come out unaltered, in order,
      once each, and at most one is under way. */
  lemma {:induction false} MailboxInOrder(box: SecretBox, acts: seq<Action>)
    ensures Queue(Run(box, acts).log, Run(box, acts).slot)
  {
    if acts != [] {
      var k := |acts| - 1;
      MailboxInOrder(box, acts[..k]);
      MailboxStep(box, Run(box, acts[..k]), acts[k]);
    }
  }

  lemma QueueStep(log: seq<Event>, slot: Slot, e: Event)
    requires Queue(log, slot)
    ensures e.Kept? && slot.None? ==> Queue(log + [e], Some(e.payload))
    ensures e.Handed? && slot == Some(e.payload) ==> Queue(log + [e], None)
    ensures !e.Kept? && !e.Handed? ==> Queue(log + [e], slot)
  {
    LogGrows(log, e);
  }

  lemma ArrivesStep(box: SecretBox, d: Device, payload: seq<byte>)
    requires Queue(d.log, d.slot)
    ensures var f := Apply(box, d, Arrives(payload)); Queue(f.log, f.slot)
  {
    QueueStep(d.log, d.slot, Kept(payload));
  }

  lemma MailboxStep(box: SecretBox, d: Device, a: Action)
    requires Queue(d.log, d.slot)
    ensures Queue(Apply(box, d, a).log, Apply(box, d, a).slot)
  {
    match a
    case Exchange(kx) => QueueStep(d.log, d.slot, SessionUp(Init(d.session, kx).0.txKey));
    case Arrives(payload) => ArrivesStep(box, d, payload);
    case DrainOne => if d.slot.Some? { QueueStep(d.log, d.slot, Handed(d.slot.value)); }
    case Ask(evidence) => QueueStep(d.log, d.slot, Asked(Query(evidence)));
    case Tick(reading, connected, entropy) =>
      var r := Seal(box, d.session, Json(reading), entropy).1;
      if r.Done? { QueueStep(d.log, d.slot, Published(reading, r.value)); }
  }

  /** The device's own query, echoed back on the shared topic, changes nothing. */
  lemma OwnQueryIgnored(box: SecretBox, d: Device, e: Evidence)
    requires WellFormed(e)
    ensures Apply(box, d, Arrives(Query(e))) == d
  {
    QueryFitsAndIsFiltered(e);
  }

  /** The exchange works: with the slot free, the verifier's reply and one drain open
      the gate if and only if the reply fits and the device's name does not make it look
      like a query. */
  lemma ReplyOpensTheGate(box: SecretBox, d: Device, deviceId: seq<CodePoint>)
    requires d.slot.None?
    ensures Apply(box, Apply(box, d, Arrives(Reply(deviceId))), DrainOne).attested
      <==> d.attested || (|Escape(deviceId)| <= 224 && !LooksLikeQuery(deviceId))
  {
    ReplyAcceptedIff(deviceId);
    YesIffTrue(true, true, deviceId);
  }

  /** With the slot free, a verdict and one drain open a closed gate if and only if the
      verdict is true and the mailbox keeps it, whatever the name and the spacing. */
  lemma VerdictDecides(box: SecretBox, d: Device, verdict: bool, spaced: bool, name: seq<CodePoint>)
    requires d.slot.None? && !d.attested
    ensures var m := VerdictReply(verdict, spaced, name);
      Apply(box, Apply(box, d, Arrives(m)), DrainOne).attested <==> verdict && Acceptable(m)
  {
    YesIffTrue(verdict, spaced, name);
  }

  /** A refusal of some name, or the query of some device. */
  ghost predicate NoConsent(payload: seq<byte>) {
    (exists spaced, name :: payload == VerdictReply(false, spaced, name)) || (exists e :: payload == Query(e))
  }

  ghost predicate NeverConsented(acts: seq<Action>) {
    forall i :: 0 <= i < |acts| && acts[i].Arrives? ==> NoConsent(acts[i].payload)
  }

  lemma NoConsentMeans(payload: seq<byte>)
    requires NoConsent(payload)
    ensures !Acceptable(payload) || !IsYes(payload)
  {
    if spaced, name :| payload == VerdictReply(false, spaced, name) {
      YesIffTrue(false, spaced, name);
    } else {
      var e :| payload == Query(e);
      QueryIsMarked(e);
    }
  }

  ghost predicate Shut(d: Device) {
    !d.attested && (d.slot.Some? ==> !IsYes(d.slot.value)) && forall k :: 0 <= k < |d.log| ==> !d.log[k].Published?
  }

  /** As long as nothing arrives but refusals and queries, in whatever mixture, with
      whatever drained in between, the gate stays closed and no telemetry leaves. */
  lemma {:induction false} RefusedStaysShut(box: SecretBox, acts: seq<Action>)
    requires NeverConsented(acts)
    ensures Shut(Run(box, acts))
  {
    if acts != [] {
      var k := |acts| - 1;
      assert NeverConsented(acts[..k]);
      RefusedStaysShut(box, acts[..k]);
      if acts[k].Arrives? {
        NoConsentMeans(acts[k].payload);
      }
    }
  }

  /** Asking goes on until the gate is open, and stops then; the query always fits. */
  lemma AsksUntilAttested(box: SecretBox, d: Device, e: Evidence)
    requires WellFormed(e)
    ensures Apply(box, d, Ask(e)) == if d.attested then d else Record(d, Asked(Query(e)))
  {
    QueryFitsAndIsFiltered(e);
  }

  /** A tick publishes if and only if the gate is open, the reading valid, the broker
      connected, and sealing works; and otherwise it changes nothing at all. */
  lemma PublishesIff(box: SecretBox, d: Device, reading: SensorReading, connected: bool, entropy: Option<nat>)
    ensures var f := Apply(box, d, Tick(reading, connected, entropy));
      var open := d.attested && reading.valid && connected && d.session.ready && entropy.Some?;
      (open <==> |f.log| == |d.log| + 1 && f.log[|d.log|].Published? && f.log[..|d.log|] == d.log) &&
      (!open ==> f == d) && f.attested == d.attested && f.slot == d.slot
  {
  }

  /** What is published, the charter can read: with the device's sending key it gets
      the reading's JSON, from which TelemetryJson.ReadBack recovers every field. */
  lemma PublishedIsReadable(box: SecretBox, d: Device, reading: SensorReading, entropy: nat)
    requires Lawful(box) && d.attested && d.session.ready && reading.valid
    ensures var f := Apply(box, d, Tick(reading, true, Some(entropy)));
      |f.log| == |d.log| + 1 && f.log[|d.log|].Published? &&
      var frame := f.log[|d.log|].frame;
      |frame| <= ENCRYPTED_MAX && DecryptMessage(box, d.session.txKey, frame) == Done(Json(reading))
  {
    JsonLength(reading);
    SealedOpens(box, d.session, Json(reading), entropy);
  }

  // ---- Everything on the wire --------------------------------------------

  /** The sending key of the last session to come up. */
  function KeySince(log: seq<Event>): Option<Key> {
    if log == [] then None
    else if log[|log| - 1].SessionUp? then Some(log[|log| - 1].txKey)
    else KeySince(log[..|log| - 1])
  }

  /** How much was published since then. */
  function PublishedSince(log: seq<Event>): nat {
    if log == [] || log[|log| - 1].SessionUp? then 0
    else PublishedSince(log[..|log| - 1]) + if log[|log| - 1].Published? then 1 else 0
  }

  lemma SinceNext(log: seq<Event>, e: Event)
    ensures KeySince(log + [e]) == if e.SessionUp? then Some(e.txKey) else KeySince(log)
    ensures PublishedSince(log + [e]) ==
      if e.SessionUp? then 0 else PublishedSince(log) + if e.Published? then 1 else 0
  {
    assert (log + [e])[..|log|] == log;
  }

  /** The session goes with the log. */
  predicate SessionOf(s: Session, log: seq<Event>) {
    (s.ready <==> KeySince(log).Some?) &&
    (s.ready ==> s.txKey == KeySince(log).value && s.msgId == PublishedSince(log) % 0x1_0000_0000_0000_0000)
  }

  /** The frame carries the number of those before it in its session, and opens under the
      session's key to the reading. */
  predicate FrameOk(box: SecretBox, before: seq<Event>, reading: SensorReading, frame: seq<byte>) {
    KeySince(before).Some? && |frame| >= 8 &&
    IdOf(frame) == PublishedSince(before) % 0x1_0000_0000_0000_0000 &&
    DecryptMessage(box, KeySince(before).value, frame) == Done(Json(reading))
  }

  predicate WireOk(box: SecretBox, log: seq<Event>) {
    forall k :: 0 <= k < |log| && log[k].Published? ==> FrameOk(box, log[..k], log[k].reading, log[k].frame)
  }

  lemma WireNext(box: SecretBox, log: seq<Event>, e: Event)
    requires WireOk(box, log) && (e.Published? ==> FrameOk(box, log, e.reading, e.frame))
    ensures WireOk(box, log + [e])
  {
    var longer := log + [e];
    forall k | 0 <= k < |longer| && longer[k].Published?
      ensures FrameOk(box, longer[..k], longer[k].reading, longer[k].frame)
    {
      assert longer[..k] == log[..k];
      assert log[..|log|] == log;
    }
  }

  lemma SealedOk(box: SecretBox, s: Session, log: seq<Event>, reading: SensorReading, plain: seq<byte>, r: nat)
    requires Lawful(box) && SessionOf(s, log) && s.ready && plain == Json(reading)
    ensures var (t, sealed) := Seal(box, s, plain, Some(r));
      sealed.Done? && FrameOk(box, log, reading, sealed.value) &&
      SessionOf(t, log + [Published(reading, sealed.value)])
  {
    SealedOpens(box, s, plain, r);
    FrameParts(s.msgId, box.seal(s.txKey, s.msgId, plain, r));
    SinceNext(log, Published(reading, Seal(box, s, plain, Some(r)).1.value));
    WrapAdd(PublishedSince(log), 1);
  }

  lemma TickOk(box: SecretBox, d: Device, reading: SensorReading, connected: bool, entropy: Option<nat>)
    requires Lawful(box) && SessionOf(d.session, d.log) && WireOk(box, d.log)
    ensures var f := Apply(box, d, Tick(reading, connected, entropy)); SessionOf(f.session, f.log) && WireOk(box, f.log)
  {
    if d.attested && reading.valid && connected && d.session.ready && entropy.Some? {
      SealedOk(box, d.session, d.log, reading, Json(reading), entropy.value);
      WireNext(box, d.log, Published(reading, Seal(box, d.session, Json(reading), entropy).1.value));
    }
  }

  lemma RecordOk(box: SecretBox, s: Session, log: seq<Event>, e: Event)
    requires SessionOf(s, log) && WireOk(box, log) && !e.SessionUp? && !e.Published?
    ensures SessionOf(s, log + [e]) && WireOk(box, log + [e])
  {
    SinceNext(log, e);
    WireNext(box, log, e);
  }

  lemma ActionOk(box: SecretBox, d: Device, a: Action)
    requires Lawful(box) && SessionOf(d.session, d.log) && WireOk(box, d.log)
    ensures var f := Apply(box, d, a); SessionOf(f.session, f.log) && WireOk(box, f.log)
  {
    match a
    case Exchange(kx) =>
      if kx.Some? {
        SinceNext(d.log, SessionUp(kx.value.0));
        WireNext(box, d.log, SessionUp(kx.value.0));
      }
    case Arrives(payload) => RecordOk(box, d.session, d.log, Kept(payload));
    case DrainOne => if d.slot.Some? { RecordOk(box, d.session, d.log, Handed(d.slot.value)); }
    case Ask(evidence) => RecordOk(box, d.session, d.log, Asked(Query(evidence)));
    case Tick(reading, connected, entropy) => TickOk(box, d, reading, connected, entropy);
  }

  lemma {:induction false} WireHolds(box: SecretBox, acts: seq<Action>)
    requires Lawful(box)
    ensures var d := Run(box, acts); SessionOf(d.session, d.log) && WireOk(box, d.log)
  {
    if acts != [] {
      WireHolds(box, acts[..|acts| - 1]);
      ActionOk(box, Run(box, acts[..|acts| - 1]), acts[|acts| - 1]);
    }
  }

  /** In every run, whatever is published opens under the key of the session it belongs
      to, to the JSON of its reading; and it carries the number of frames published in
      that session before it. */
  lemma EverythingIsReadable(box: SecretBox, acts: seq<Action>, k: nat)
    requires Lawful(box) && k < |Run(box, acts).log| && Run(box, acts).log[k].Published?
    ensures var log := Run(box, acts).log; var key := KeySince(log[..k]);
      key.Some? && DecryptMessage(box, key.value, log[k].frame) == Done(Json(log[k].reading)) &&
      |log[k].frame| >= 8 && IdOf(log[k].frame) == PublishedSince(log[..k]) % 0x1_0000_0000_0000_0000
  {
    WireHolds(box, acts);
    var log := Run(box, acts).log;
    assert FrameOk(box, log[..k], log[k].reading, log[k].frame);
  }

  lemma {:induction false} PublishedGrows(log: seq<Event>, i: nat, k: nat)
    requires i < k <= |log| && log[i].Published? && forall j :: i < j < k ==> !log[j].SessionUp?
    ensures PublishedSince(log[..i]) < PublishedSince(log[..k])
    decreases k
  {
    assert log[..k] == log[..k - 1] + [log[k - 1]];
    SinceNext(log[..k - 1], log[k - 1]);
    if i < k - 1 {
      PublishedGrows(log, i, k - 1);
    }
  }

  /** So no id occurs twice in a session of fewer than 2^64 frames. */
  lemma NoIdTwice(box: SecretBox, acts: seq<Action>, i: nat, k: nat)
    requires Lawful(box) && i < k < |Run(box, acts).log|
    requires Run(box, acts).log[i].Published? && Run(box, acts).log[k].Published?
    requires forall j :: i < j < k ==> !Run(box, acts).log[j].SessionUp?
    requires PublishedSince(Run(box, acts).log[..k]) < 0x1_0000_0000_0000_0000
    ensures var log := Run(box, acts).log;
      |log[i].frame| >= 8 && |log[k].frame| >= 8 && IdOf(log[i].frame) < IdOf(log[k].frame)
  {
    EverythingIsReadable(box, acts, i);
    EverythingIsReadable(box, acts, k);
    PublishedGrows(Run(box, acts).log, i, k);
    NoWrap(PublishedSince(Run(box, acts).log[..i]));
    NoWrap(PublishedSince(Run(box, acts).log[..k]));
  }

  // ---- From the start ----------------------------------------------------

  /** The exchange from the very start, with `m` as the message that arrives. */
  function Opening(tx: Key, rx: Key, e: Evidence, m: seq<byte>): seq<Action> {
    [Exchange(Some((tx, rx)))] + [Ask(e)] + [Arrives(m)] + [DrainOne]
  }

  lemma RunNext(box: SecretBox, acts: seq<Action>, a: Action)
    ensures Run(box, acts + [a]) == Apply(box, Run(box, acts), a)
  {
    assert (acts + [a])[..|acts|] == acts;
  }

  lemma AfterOpening(box: SecretBox, tx: Key, rx: Key, e: Evidence, m: seq<byte>)
    requires WellFormed(e) && Acceptable(m) && IsYes(m)
    ensures Run(box, Opening(tx, rx, e, m)) ==
      Device(Session(true, 0, tx, rx), None, true, [SessionUp(tx), Asked(Query(e)), Kept(m), Handed(m)])
  {
    var start := [Exchange(Some((tx, rx)))];
    assert [] + start == start;
    RunNext(box, [], Exchange(Some((tx, rx))));
    RunNext(box, start, Ask(e));
    AsksUntilAttested(box, Run(box, start), e);
    RunNext(box, start + [Ask(e)], Arrives(m));
    RunNext(box, start + [Ask(e)] + [Arrives(m)], DrainOne);
  }

  /** A frame with the first id that the charter opens to `plain`. */
  predicate FirstFrame(box: SecretBox, key: Key, frame: seq<byte>, plain: seq<byte>) {
    |frame| >= 8 && IdOf(frame) == 0 && DecryptMessage(box, key, frame) == Done(plain)
  }

  lemma FirstSealed(box: SecretBox, s: Session, plain: seq<byte>, r: nat)
    requires Lawful(box) && s.ready && s.msgId == 0
    ensures var sealed := Seal(box, s, plain, Some(r)).1; sealed.Done? && FirstFrame(box, s.txKey, sealed.value, plain)
  {
    SealedOpens(box, s, plain, r);
    FrameParts(0, box.seal(s.txKey, 0, plain, r));
  }

  /** The log of a first exchange and one tick. */
  predicate FirstLog(box: SecretBox, key: Key, log: seq<Event>, e: Evidence, m: seq<byte>, plain: seq<byte>) {
    |log| == 5 && log[..4] == [SessionUp(key), Asked(Query(e)), Kept(m), Handed(m)] &&
    log[4].Published? && FirstFrame(box, key, log[4].frame, plain)
  }

  lemma FirstTick(box: SecretBox, tx: Key, rx: Key, e: Evidence, m: seq<byte>, reading: SensorReading, r: nat)
    requires Lawful(box) && WellFormed(e) && Acceptable(m) && IsYes(m) && reading.valid
    ensures FirstLog(box, tx, Run(box, Opening(tx, rx, e, m) + [Tick(reading, true, Some(r))]).log, e, m, Json(reading))
  {
    AfterOpening(box, tx, rx, e, m);
    RunNext(box, Opening(tx, rx, e, m), Tick(reading, true, Some(r)));
    FirstSealed(box, Session(true, 0, tx, rx), Json(reading), r);
  }

  /** It works from end to end: for any keys, evidence and valid reading, and any name
      whose reply is kept, the device asks with exactly its evidence, is told yes, and
      the first telemetry is the reading, under the first message id. */
  lemma FirstTelemetry(box: SecretBox, tx: Key, rx: Key, e: Evidence, name: seq<CodePoint>,
                       reading: SensorReading, r: nat)
    requires Lawful(box) && WellFormed(e) && QUOTE !in e.deviceId && reading.valid
    requires |Escape(name)| <= 224 && !LooksLikeQuery(name)
    ensures FirstLog(box, tx, Run(box, Opening(tx, rx, e, Reply(name)) + [Tick(reading, true, Some(r))]).log,
                     e, Reply(name), Json(reading))
    ensures ReadQuery(Query(e)) == Some(e) && Read(Json(reading)) == Some(reading)
  {
    QueryReadsBackIff(e);
    ReplyAcceptedIff(name);
    YesIffTrue(true, true, name);
    FirstTick(box, tx, rx, e, Reply(name), reading, r);
    ReadBack(reading);
  }
}

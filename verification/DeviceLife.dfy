/** The device's register through exchanges, restarts and whatever is published on the
    command topic: commands, repetitions, frames under keys of the past, and junk. */
module DeviceLife {
  import opened Wrappers
  import opened Bytes
  import opened PolicyEngine
  import opened CommandOrder
  import opened CryptoSession
  import opened CharterCrypto
  import opened CommandPath

  /** A payload whose text fits the callback's buffer. */
  type Payload = p: seq<byte> | |p| <= 8 + HEADER_BYTES + PLAIN_BUFFER

  // ---- One payload -------------------------------------------------------

  /** The box opens the payload to `text`, under the receiving key and the id in front. */
  predicate Opens(box: SecretBox, key: Option<Key>, payload: seq<byte>, text: seq<byte>) {
    key.Some? && |payload| >= 44 && box.open(key.value, IdOf(payload), payload[8..]) == Some(text)
  }

  ghost predicate Junk(box: SecretBox, key: Option<Key>, payload: seq<byte>) {
    forall text :: !Opens(box, key, payload, text)
  }

  function ReceivingKey(s: Session): Option<Key> {
    if s.ready then Some(s.rxKey) else None
  }

  /** The payload opens to a text that is accepted as a command newer than what `p`
      shows, and `q` shows that command. */
  ghost predicate Tells(box: SecretBox, key: Option<Key>, p: Policy, payload: seq<byte>, q: Policy) {
    q.lastCommandTimestamp > p.lastCommandTimestamp &&
    exists text :: Opens(box, key, payload, text) && Accepts(text, Command(q.lastCommandTimestamp, q.moistureLow))
  }

  /** A payload changes the register if and only if it tells it to, and then to what it
      tells. In particular no junk changes it. */
  lemma ObeysExactly(box: SecretBox, s: Session, p: Policy, payload: Payload, q: Policy)
    ensures OnCommand(box, s, p, payload) == q != p <==> Tells(box, ReceivingKey(s), p, payload, q)
    ensures Junk(box, ReceivingKey(s), payload) ==> OnCommand(box, s, p, payload) == p
  {
    OpenMeans(box, s, payload);
    forall text ensures Opens(box, ReceivingKey(s), payload, text) <==> Open(box, s, payload) == Done(text) {
    }
    var c := Command(q.lastCommandTimestamp, q.moistureLow);
    forall text ensures Accepts(text, c) <==> Decode(text) == Some(c) {
      AcceptedLanguage(text, c);
    }
  }

  // ---- The device's life -------------------------------------------------

  datatype Happens =
    | Exchanged(kx: Option<(Key, Key)>)
    | Restarted
    | Got(payload: Payload)

  datatype Device = Device(session: Session, register: Policy)

  function Live(box: SecretBox, d: Device, e: Happens): Device {
    match e
    case Exchanged(kx) => d.(session := Init(d.session, kx).0)
    case Restarted => Device(NO_SESSION, INITIAL_POLICY)
    case Got(payload) => d.(register := OnCommand(box, d.session, d.register, payload))
  }

  function Life(box: SecretBox, h: seq<Happens>): Device {
    if h == [] then Device(NO_SESSION, INITIAL_POLICY)
    else Live(box, Life(box, h[..|h| - 1]), h[|h| - 1])
  }

  /** The receiving key of the last successful exchange since the device last started. */
  function KeyNow(h: seq<Happens>): Option<Key> {
    if h == [] then None
    else
      match h[|h| - 1]
      case Restarted => None
      case Exchanged(Some((tx, rx))) => Some(rx)
      case _ => KeyNow(h[..|h| - 1])
  }

  /** What the payloads since the last start open to, each under the key of its time. */
  ghost function TextsGot(box: SecretBox, h: seq<Happens>): seq<seq<byte>> {
    if h == [] then []
    else
      var before := h[..|h| - 1];
      match h[|h| - 1]
      case Restarted => []
      case Exchanged(_) => TextsGot(box, before)
      case Got(payload) =>
        if text :| Opens(box, KeyNow(before), payload, text) then TextsGot(box, before) + [text]
        else TextsGot(box, before)
  }

  lemma LifeNext(box: SecretBox, h: seq<Happens>, e: Happens)
    ensures Life(box, h + [e]) == Live(box, Life(box, h), e)
    ensures KeyNow(h + [e]) ==
      match e
      case Restarted => None
      case Exchanged(Some((tx, rx))) => Some(rx)
      case _ => KeyNow(h)
  {
    assert (h + [e])[..|h|] == h;
  }

  /** The session is that of the last exchange. */
  lemma {:induction false} KeyIsCurrent(box: SecretBox, h: seq<Happens>)
    ensures ReceivingKey(Life(box, h).session) == KeyNow(h)
  {
    if h != [] {
      KeyIsCurrent(box, h[..|h| - 1]);
    }
  }

  lemma GotMeans(box: SecretBox, h: seq<Happens>, payload: Payload)
    ensures var (p, q) := (Life(box, h).register, Life(box, h + [Got(payload)]).register);
      (forall text :: Opens(box, KeyNow(h), payload, text) ==> q == Receive(p, Some(text)).0) &&
      (Junk(box, KeyNow(h), payload) ==> q == p)
  {
    var d := Life(box, h);
    LifeNext(box, h, Got(payload));
    KeyIsCurrent(box, h);
    OpenMeans(box, d.session, payload);
    ObeysExactly(box, d.session, d.register, payload, d.register);
  }

  /** Whatever reaches the device, in whatever sessions, its register is that of the
      texts that opened since it last started, delivered in order. */
  lemma {:induction false} RegisterIsDelivered(box: SecretBox, h: seq<Happens>)
    ensures Life(box, h).register == Deliver(TextsGot(box, h))
  {
    if h != [] {
      var before, e := h[..|h| - 1], h[|h| - 1];
      RegisterIsDelivered(box, before);
      if e.Got? {
        GotMeans(box, before, e.payload);
        assert h == before + [e];
        if text :| Opens(box, KeyNow(before), e.payload, text) {
          var texts := TextsGot(box, before);
          assert TextsGot(box, h) == texts + [text];
          assert (texts + [text])[..|texts|] == texts;
        }
      }
    }
  }

  /** The history without the payloads that did not open. */
  ghost function WithoutJunk(box: SecretBox, h: seq<Happens>): seq<Happens> {
    if h == [] then []
    else
      var before, e := h[..|h| - 1], h[|h| - 1];
      if e.Got? && Junk(box, KeyNow(before), e.payload) then WithoutJunk(box, before)
      else WithoutJunk(box, before) + [e]
  }

  /** Leaving them out makes no difference, to the register or to the session. */
  lemma {:induction false} JunkMakesNoDifference(box: SecretBox, h: seq<Happens>)
    ensures Life(box, WithoutJunk(box, h)) == Life(box, h)
  {
    if h != [] {
      var before, e := h[..|h| - 1], h[|h| - 1];
      JunkMakesNoDifference(box, before);
      LifeNext(box, WithoutJunk(box, before), e);
      assert h == before + [e];
      if e.Got? {
        GotMeans(box, before, e.payload);
      }
    }
  }

  /** The register shows the largest accepted timestamp that opened since the start,
      with the threshold it first came with. */
  lemma RegisterReflects(box: SecretBox, h: seq<Happens>)
    ensures Reflects(TextsGot(box, h), Life(box, h).register)
  {
    RegisterIsDelivered(box, h);
    FinalReflects(TextsGot(box, h));
  }

  /** Two lives that got the same commands since their last starts end up alike, in
      whatever order, however often and in whatever sessions they came, and whatever
      else came in between, if the newest commands agree. */
  lemma LivesConverge(box: SecretBox, a: seq<Happens>, b: seq<Happens>)
    requires SameCommands(TextsGot(box, a), TextsGot(box, b)) && NewestAgree(TextsGot(box, a))
    ensures Life(box, a).register == Life(box, b).register
  {
    RegisterIsDelivered(box, a);
    RegisterIsDelivered(box, b);
    Converges(TextsGot(box, a), TextsGot(box, b));
  }

  /** What the charter encrypts under the present key is got. */
  lemma CharterIsHeard(box: SecretBox, h: seq<Happens>, msgId: uint64, o: Order, r: nat)
    requires Lawful(box) && KeyNow(h).Some? && |Text(o)| <= PLAIN_BUFFER
    ensures var frame := EncryptCommand(box, KeyNow(h).value, msgId, Text(o), r);
      frame.Some? && |frame.value| <= 8 + HEADER_BYTES + PLAIN_BUFFER &&
      TextsGot(box, h + [Got(frame.value)]) == TextsGot(box, h) + [Text(o)]
  {
    HeardAs(box, h, msgId, Text(o), r);
  }

  lemma HeardAs(box: SecretBox, h: seq<Happens>, msgId: uint64, text: seq<byte>, r: nat)
    requires Lawful(box) && KeyNow(h).Some? && |text| <= PLAIN_BUFFER
    ensures var frame := EncryptCommand(box, KeyNow(h).value, msgId, text, r);
      frame.Some? && |frame.value| <= 8 + HEADER_BYTES + PLAIN_BUFFER &&
      TextsGot(box, h + [Got(frame.value)]) == TextsGot(box, h) + [text]
  {
    FrameParts(msgId, box.seal(KeyNow(h).value, msgId, text, r));
    var frame := EncryptCommand(box, KeyNow(h).value, msgId, text, r).value;
    assert Opens(box, KeyNow(h), frame, text);
    var longer := h + [Got(frame)];
    assert longer[..|h|] == h;
  }
}

/** A threshold command end to end: printed and encrypted by the charter
    (charter/commands.py, charter/encryption.py), decrypted by the device
    (src/comms.cc, src/crypto.cc) and applied by the policy engine. */
module CommandPath {
  import opened Wrappers
  import opened Bytes
  import opened Decimal
  import opened Frames
  import opened PolicyEngine
  import opened CommandOrder
  import opened CryptoSession
  import opened CharterCrypto

  const PLAIN_BUFFER := 256

  // ---- The charter's side ------------------------------------------------

  /** The charter's format string, piece by piece. */
  function BuildCommand(timestamp: nat, threshold: nat): seq<byte> {
    Ascii("{\"timestamp\":") + Numeral(timestamp) + (Ascii(",\"threshold\":") + Numeral(threshold) + Ascii("}"))
  }

  // ---- The device's side -------------------------------------------------

  /** publish_callback on the command topic. The decrypted text goes to a buffer
      whose size the crypto compartment is not told. */
  function OnCommand(box: SecretBox, s: Session, p: Policy, payload: seq<byte>): Policy
    requires |payload| <= 8 + HEADER_BYTES + PLAIN_BUFFER
  {
    match Open(box, s, payload)
    case Done(plain) => Receive(p, Some(plain)).0
    case Failed(_) => p
  }

  // ---- The text ----------------------------------------------------------

  lemma FieldTooBig(s: seq<byte>, a: seq<byte>, key: seq<byte>, v: nat, rest: seq<byte>)
    requires s == a + key + Numeral(v) + rest && rest != [] && !IsDigit(rest[0]) && v > UINT32_MAX
    ensures |a| <= |s| && ParseField(s, |a|, key) == None
  {
    ValueOfNumeral(v);
    FieldInConcat(s, a, key, Numeral(v), rest);
    var start := |a| + |key|;
    assert s[start..start + |Numeral(v)|] == Numeral(v);
    RunEndUnique(s, start, start + |Numeral(v)|);
  }

  lemma FieldPrinted(s: seq<byte>, a: seq<byte>, key: seq<byte>, v: nat, rest: seq<byte>)
    requires s == a + key + Numeral(v) + rest && rest != [] && !IsDigit(rest[0]) && v <= UINT32_MAX
    ensures |a| <= |s| && ParseField(s, |a|, key) == Some(Field(v, |a| + |key| + |Numeral(v)|))
  {
    ValueOfNumeral(v);
    FieldInConcat(s, a, key, Numeral(v), rest);
    ParseFieldAt(s, |a|, key, Numeral(v));
  }

  /** The firmware reads the charter's text back exactly; and it refuses the text
      exactly if a number is out of range. */
  lemma TextRoundTrip(timestamp: nat, threshold: nat)
    ensures Decode(BuildCommand(timestamp, threshold)) ==
      if timestamp <= UINT32_MAX && threshold <= UINT16_MAX then Some(Command(timestamp, threshold)) else None
  {
    var s := BuildCommand(timestamp, threshold);
    assert Ascii("}") == [CLOSING_BRACE];
    var tail := THRESHOLD_KEY + Numeral(threshold) + [CLOSING_BRACE];
    assert s == [] + TIMESTAMP_KEY + Numeral(timestamp) + tail;
    assert tail[0] == THRESHOLD_KEY[0] == 44;
    if timestamp > UINT32_MAX {
      FieldTooBig(s, [], TIMESTAMP_KEY, timestamp, tail);
    } else {
      FieldPrinted(s, [], TIMESTAMP_KEY, timestamp, tail);
      var a := TIMESTAMP_KEY + Numeral(timestamp);
      assert s == a + THRESHOLD_KEY + Numeral(threshold) + [CLOSING_BRACE];
      if threshold > UINT32_MAX {
        FieldTooBig(s, a, THRESHOLD_KEY, threshold, [CLOSING_BRACE]);
      } else {
        FieldPrinted(s, a, THRESHOLD_KEY, threshold, [CLOSING_BRACE]);
        assert s[|a| + |THRESHOLD_KEY| + |Numeral(threshold)|] == CLOSING_BRACE;
      }
    }
  }

  lemma TextLength(timestamp: uint32, threshold: uint16)
    ensures 29 <= |BuildCommand(timestamp, threshold)| <= 42
  {
    Widths(timestamp);
    Widths(threshold);
  }

  // ---- End to end --------------------------------------------------------

  // ---- The charter's session ----------------------------------------------

  /** What the operator asked for at some second of the charter's clock. */
  datatype Order = Order(timestamp: nat, threshold: nat)

  function Text(o: Order): seq<byte> {
    BuildCommand(o.timestamp, o.threshold)
  }

  /** The last timestamp of a series of orders; -1 if there is none. */
  function LastStamp(orders: seq<Order>): int {
    if orders == [] then -1 else orders[|orders| - 1].timestamp
  }

  /** The charter warns about the `i`-th of a series of orders. */
  predicate Warns(orders: seq<Order>, i: nat)
    requires i < |orders|
  {
    orders[i].timestamp <= LastStamp(orders[..i])
  }

  /** The charter's side of one device. The timestamps outlive a change of keys; the
      message ids do not. */
  class Charter {
    const box: SecretBox
    var txKey: Key
    var txMsgId: nat
    var lastSent: Option<nat>          // _last_sent_timestamp of the device
    ghost var orders: seq<Order>       // everything ever sent
    ghost var underKey: nat            // how much of it under the present key

    ghost predicate Valid()
      reads this
    {
      txMsgId == (if underKey <= 0x1_0000_0000_0000_0000 then underKey else 0x1_0000_0000_0000_0000) &&
      lastSent == if orders == [] then None else Some(orders[|orders| - 1].timestamp)
    }

    constructor (box: SecretBox, txKey: Key)
      ensures Valid() && this.box == box && this.txKey == txKey && orders == [] && underKey == 0
    {
      this.box, this.txKey := box, txKey;
      txMsgId, lastSent, orders, underKey := 0, None, [], 0;
    }

    /** A key packet of the device starts a new session. */
    method NewSession(txKey: Key)
      requires Valid()
      modifies this
      ensures Valid() && this.txKey == txKey && orders == old(orders) && underKey == 0
    {
      this.txKey, txMsgId, underKey := txKey, 0, 0;
    }

    /** send_threshold_update. The warning is about the order just given, in the series
        of all orders; the frame carries the number of earlier orders under the key as
        its id, and a device with that key opens it to the order's text. */
    method SendThreshold(o: Order, r: nat) returns (frame: Option<seq<byte>>, warned: bool)
      requires Valid() && Lawful(box)
      modifies this
      ensures Valid() && txKey == old(txKey)
      ensures orders == old(orders) + [o] && underKey == old(underKey) + 1
      ensures warned <==> Warns(orders, |orders| - 1)
      ensures frame.Some? <==> old(underKey) < 0x1_0000_0000_0000_0000
      ensures frame.Some? ==> |frame.value| >= 8 && LeValue(frame.value[..8]) == old(underKey)
      ensures frame.Some? ==>
        forall s: Session :: s.ready && s.rxKey == txKey ==> Open(box, s, frame.value) == Done(Text(o))
    {
      warned := lastSent.Some? && o.timestamp <= lastSent.value;
      lastSent := Some(o.timestamp);
      orders := orders + [o];
      assert orders[..|orders| - 1] == old(orders);
      frame := EncryptCommand(box, txKey, txMsgId, Text(o), r);
      if frame.Some? {
        OpensEverywhere(box, txKey, txMsgId, Text(o), r);
        txMsgId := txMsgId + 1;
      }
      underKey := underKey + 1;
    }
  }

  /** Whatever the charter sends is what the device obeys: for every timestamp and
      threshold in range, every message id and every register. */
  lemma EndToEnd(box: SecretBox, s: Session, p: Policy, msgId: uint64,
                                    timestamp: uint32, threshold: uint16, r: nat)
    requires Lawful(box) && s.ready
    ensures var frame := EncryptCommand(box, s.rxKey, msgId, BuildCommand(timestamp, threshold), r);
      frame.Some? && |frame.value| <= 8 + HEADER_BYTES + 42 &&
      OnCommand(box, s, p, frame.value) ==
        if timestamp > p.lastCommandTimestamp then Policy(threshold, timestamp) else p
  {
    TextLength(timestamp, threshold);
    TextRoundTrip(timestamp, threshold);
    FrameOpens(box, s, msgId, BuildCommand(timestamp, threshold), r);
  }

  /** A command as the operator sent it, with the id and randomness it got. */
  datatype Sent = Sent(msgId: uint64, command: Command, r: nat)

  function TextOf(c: Command): seq<byte> {
    BuildCommand(c.timestamp, c.threshold)
  }

  function Texts(sent: seq<Sent>): seq<seq<byte>> {
    seq(|sent|, i requires 0 <= i < |sent| => TextOf(sent[i].command))
  }

  /** The device's register after a stream of frames arrived. */
  ghost function Arrive(box: SecretBox, s: Session, sent: seq<Sent>): Policy
    requires Lawful(box) && s.ready
  {
    if sent == [] then INITIAL_POLICY
    else
      var m := sent[|sent| - 1];
      EndToEnd(box, s, INITIAL_POLICY, m.msgId, m.command.timestamp, m.command.threshold, m.r);
      OnCommand(box, s, Arrive(box, s, sent[..|sent| - 1]),
                EncryptCommand(box, s.rxKey, m.msgId, TextOf(m.command), m.r).value)
  }

  lemma DeliverNext(packets: seq<seq<byte>>, text: seq<byte>)
    ensures Deliver(packets + [text]) == Receive(Deliver(packets), Some(text)).0
  {
    assert (packets + [text])[..|packets|] == packets;
  }

  lemma OnFrame(box: SecretBox, s: Session, p: Policy, msgId: uint64, text: seq<byte>, r: nat)
    requires Lawful(box) && s.ready && |text| <= PLAIN_BUFFER
    ensures var frame := EncryptCommand(box, s.rxKey, msgId, text, r);
      frame.Some? && |frame.value| <= 8 + HEADER_BYTES + PLAIN_BUFFER &&
      OnCommand(box, s, p, frame.value) == Receive(p, Some(text)).0
  {
    FrameOpens(box, s, msgId, text, r);
  }

  lemma TextsNext(sent: seq<Sent>)
    requires sent != []
    ensures Texts(sent) == Texts(sent[..|sent| - 1]) + [TextOf(sent[|sent| - 1].command)]
  {
  }

  lemma {:induction false} ArriveDelivers(box: SecretBox, s: Session, sent: seq<Sent>)
    requires Lawful(box) && s.ready
    ensures Arrive(box, s, sent) == Deliver(Texts(sent))
  {
    if sent != [] {
      var before, m := sent[..|sent| - 1], sent[|sent| - 1];
      ArriveDelivers(box, s, before);
      TextsNext(sent);
      DeliverNext(Texts(before), TextOf(m.command));
      TextLength(m.command.timestamp, m.command.threshold);
      OnFrame(box, s, Arrive(box, s, before), m.msgId, TextOf(m.command), m.r);
    }
  }

  ghost predicate SameOrders(a: seq<Sent>, b: seq<Sent>) {
    forall c :: Ordered(a, c) <==> Ordered(b, c)
  }

  ghost predicate Ordered(a: seq<Sent>, c: Command) {
    exists i :: 0 <= i < |a| && a[i].command == c
  }

  lemma OrderedIsCarried(a: seq<Sent>, c: Command)
    ensures Ordered(a, c) <==> Carries(Texts(a), c)
  {
    if i :| 0 <= i < |a| && a[i].command == c {
      SaysItsOrder(a, i);
    }
    if i :| Says(Texts(a), i, c) {
      SaysItsOrder(a, i);
    }
  }

  lemma SameOrdersCarried(a: seq<Sent>, b: seq<Sent>)
    ensures SameOrders(a, b) <==> SameCommands(Texts(a), Texts(b))
  {
    forall c ensures Ordered(a, c) <==> Carries(Texts(a), c) { OrderedIsCarried(a, c); }
    forall c ensures Ordered(b, c) <==> Carries(Texts(b), c) { OrderedIsCarried(b, c); }
  }

  /** The commands ordered for the newest positive timestamp. */
  ghost predicate NewestOrdered(a: seq<Sent>, c: Command) {
    Ordered(a, c) && c.timestamp > 0 && forall d :: Ordered(a, d) ==> d.timestamp <= c.timestamp
  }

  ghost predicate NewestOrdersAgree(a: seq<Sent>) {
    forall c, d :: NewestOrdered(a, c) && NewestOrdered(a, d) ==> c == d
  }

  lemma NewestIsNewest(a: seq<Sent>, c: Command)
    ensures NewestOrdered(a, c) <==> Newest(Texts(a), c)
  {
    forall d ensures Ordered(a, d) <==> Carries(Texts(a), d) { OrderedIsCarried(a, d); }
  }

  /** The device holds a newest order, or there was none with a positive timestamp; so
      no order is newer than what it holds. */
  lemma ArrivedIsNewest(box: SecretBox, s: Session, a: seq<Sent>)
    requires Lawful(box) && s.ready
    ensures var p := Arrive(box, s, a);
      if p.lastCommandTimestamp == 0 then p == INITIAL_POLICY && forall c :: !NewestOrdered(a, c)
      else NewestOrdered(a, Command(p.lastCommandTimestamp, p.moistureLow))
    ensures forall c :: Ordered(a, c) ==> c.timestamp <= Arrive(box, s, a).lastCommandTimestamp
  {
    ArriveDelivers(box, s, a);
    FinalIsNewest(Texts(a));
    FinalReflects(Texts(a));
    forall c ensures NewestOrdered(a, c) <==> Newest(Texts(a), c) { NewestIsNewest(a, c); }
    forall c | Ordered(a, c) ensures c.timestamp <= Arrive(box, s, a).lastCommandTimestamp {
      OrderedIsCarried(a, c);
      var i :| Says(Texts(a), i, c);
    }
  }

  /** A second copy of a newest order, sent first, decides. */
  lemma NewestFrameInFront(box: SecretBox, s: Session, a: seq<Sent>, i: nat)
    requires Lawful(box) && s.ready && i < |a| && NewestOrdered(a, a[i].command)
    ensures SameOrders(a, [a[i]] + a)
    ensures Arrive(box, s, [a[i]] + a) == Policy(a[i].command.threshold, a[i].command.timestamp)
  {
    var b, c := [a[i]] + a, a[i].command;
    TextsInFront(a, i);
    NewestIsNewest(a, c);
    SaysItsOrder(a, i);
    DuplicateInFront(Texts(a), i);
    NewestInFront(Texts(a), i, c);
    SameOrdersCarried(a, b);
    ArriveDelivers(box, s, b);
  }

  lemma SaysItsOrder(a: seq<Sent>, i: nat)
    requires i < |a|
    ensures Says(Texts(a), i, a[i].command)
  {
    TextRoundTrip(a[i].command.timestamp, a[i].command.threshold);
  }

  lemma TextsInFront(a: seq<Sent>, i: nat)
    requires i < |a|
    ensures |Texts(a)| == |a| && Texts([a[i]] + a) == [Texts(a)[i]] + Texts(a)
  {
  }

  /** Every history of frames with the same commands, in any order, with any
      repetition, under any message ids, leaves the device in the same state. */
  ghost predicate Insensitive(box: SecretBox, s: Session, a: seq<Sent>)
    requires Lawful(box) && s.ready
  {
    forall b :: SameOrders(a, b) ==> Arrive(box, s, b) == Arrive(box, s, a)
  }

  lemma NewestStaysInFront(box: SecretBox, s: Session, a: seq<Sent>, c: Command)
    requires Lawful(box) && s.ready && Insensitive(box, s, a) && NewestOrdered(a, c)
    ensures Arrive(box, s, a) == Policy(c.threshold, c.timestamp)
  {
    var i :| 0 <= i < |a| && a[i].command == c;
    NewestFrameInFront(box, s, a, i);
  }

  /** Convergence of encrypted histories, exactly: order, repetition and message ids do
      not matter if and only if the newest orders agree on the threshold. */
  lemma FramesConvergeIff(box: SecretBox, s: Session, a: seq<Sent>)
    requires Lawful(box) && s.ready
    ensures Insensitive(box, s, a) <==> NewestOrdersAgree(a)
  {
    if NewestOrdersAgree(a) {
      forall b | SameOrders(a, b) ensures Arrive(box, s, b) == Arrive(box, s, a) {
        FramesConverge(box, s, a, b);
      }
    }
    if Insensitive(box, s, a) {
      forall c, d | NewestOrdered(a, c) && NewestOrdered(a, d) ensures c == d {
        NewestStaysInFront(box, s, a, c);
        NewestStaysInFront(box, s, a, d);
      }
    }
  }

  lemma FramesConverge(box: SecretBox, s: Session, a: seq<Sent>, b: seq<Sent>)
    requires Lawful(box) && s.ready && SameOrders(a, b) && NewestOrdersAgree(a)
    ensures Arrive(box, s, b) == Arrive(box, s, a)
  {
    SameOrdersCarried(a, b);
    forall c ensures NewestOrdered(a, c) <==> Newest(Texts(a), c) { NewestIsNewest(a, c); }
    Converges(Texts(a), Texts(b));
    ArriveDelivers(box, s, a);
    ArriveDelivers(box, s, b);
  }

  // ---- The charter's warning ---------------------------------------------

  /** What happens between the charter and one device: an order is sent and arrives or
      is lost, or the device restarts, which puts the register back to its initial
      value. A key exchange in between changes nothing here: an order under a key the
      device no longer has is lost. */
  datatype Happening = Sends(order: Order, arrives: bool) | Restart

  /** All orders so far: the charter forgets none. */
  function Orders(h: seq<Happening>): seq<Order> {
    if h == [] then []
    else
      var last := h[|h| - 1];
      Orders(h[..|h| - 1]) + if last.Sends? then [last.order] else []
  }

  /** The device's register. */
  function Register(h: seq<Happening>): Policy {
    if h == [] then INITIAL_POLICY
    else
      match h[|h| - 1]
      case Restart => INITIAL_POLICY
      case Sends(o, arrives) =>
        var p := Register(h[..|h| - 1]);
        if arrives then Receive(p, Some(Text(o))).0 else p
  }

  /** The texts that arrived since the device last started. */
  function ArrivedSince(h: seq<Happening>): seq<seq<byte>> {
    if h == [] || h[|h| - 1].Restart? then []
    else
      var last := h[|h| - 1];
      ArrivedSince(h[..|h| - 1]) + if last.arrives then [Text(last.order)] else []
  }

  /** The register is that of those texts, delivered in order. */
  lemma {:induction false} RegisterIsDelivered(h: seq<Happening>)
    ensures Register(h) == Deliver(ArrivedSince(h))
  {
    if h != [] && h[|h| - 1].Sends? {
      var before := ArrivedSince(h[..|h| - 1]);
      RegisterIsDelivered(h[..|h| - 1]);
      DeliverNext(before, Text(h[|h| - 1].order));
      assert before + [] == before;
    }
  }

  predicate InRange(o: Order) {
    o.timestamp <= UINT32_MAX && o.threshold <= UINT16_MAX
  }

  /** The largest timestamp in range that arrived since the device last started. */
  function NewestSince(h: seq<Happening>): nat {
    if h == [] then 0
    else
      match h[|h| - 1]
      case Restart => 0
      case Sends(o, arrives) =>
        var m := NewestSince(h[..|h| - 1]);
        if arrives && InRange(o) && o.timestamp > m then o.timestamp else m
  }

  /** The order at `i` is warned about. */
  predicate Warned(h: seq<Happening>, i: nat)
    requires i < |h| && h[i].Sends?
  {
    var orders := Orders(h[..i]) + [h[i].order];
    Warns(orders, |orders| - 1)
  }

  /** The order at `i` is dropped as stale. */
  predicate Dropped(h: seq<Happening>, i: nat)
    requires i < |h| && h[i].Sends?
  {
    h[i].arrives && Receive(Register(h[..i]), Some(Text(h[i].order))).1 == Already
  }

  lemma {:induction false} RegisterIsNewest(h: seq<Happening>)
    ensures Register(h).lastCommandTimestamp == NewestSince(h)
  {
    if h != [] {
      var last := h[|h| - 1];
      RegisterIsNewest(h[..|h| - 1]);
      if last.Sends? {
        TextRoundTrip(last.order.timestamp, last.order.threshold);
      }
    }
  }

  lemma WarnedMeans(h: seq<Happening>, i: nat)
    requires i < |h| && h[i].Sends?
    ensures Warned(h, i) <==> h[i].order.timestamp <= LastStamp(Orders(h[..i]))
  {
    var before := Orders(h[..i]);
    assert (before + [h[i].order])[..|before|] == before;
  }

  /** The warning compares with the last timestamp sent, the device with the largest it
      got since it started. So a warning is false exactly for an order not after the
      last one sent that is lost, out of range, or after the largest one got; and a drop
      goes without a warning exactly for an order that arrives, is in range, and lies
      after the last one sent but not after the largest one got. */
  lemma WarningIff(h: seq<Happening>, i: nat)
    requires i < |h| && h[i].Sends?
    ensures var (o, sent, got) := (h[i].order, LastStamp(Orders(h[..i])), NewestSince(h[..i]));
      (Warned(h, i) && !Dropped(h, i) <==>
        o.timestamp <= sent && (!h[i].arrives || !InRange(o) || got < o.timestamp)) &&
      (Dropped(h, i) && !Warned(h, i) <==> h[i].arrives && InRange(o) && sent < o.timestamp <= got)
  {
    WarnedMeans(h, i);
    RegisterIsNewest(h[..i]);
    TextRoundTrip(h[i].order.timestamp, h[i].order.threshold);
  }

  /** No restart, no loss, every order in range. */
  predicate Smooth(h: seq<Happening>) {
    forall i :: 0 <= i < |h| ==> h[i].Sends? && h[i].arrives && InRange(h[i].order)
  }

  lemma {:induction false} SmoothGetsLast(h: seq<Happening>)
    requires Smooth(h)
    ensures LastStamp(Orders(h)) <= NewestSince(h)
  {
    if h != [] {
      SmoothGetsLast(h[..|h| - 1]);
    }
  }

  /** A false warning takes a restart or a loss. */
  lemma SmoothWarningsAreTrue(h: seq<Happening>, i: nat)
    requires i < |h| && Smooth(h)
    ensures Warned(h, i) ==> Dropped(h, i)
  {
    SmoothGetsLast(h[..i]);
    WarningIff(h, i);
  }

  /** If an order at second `t` comes next, and arrives, it is warned about if and only
      if it is dropped. */
  predicate RightAbout(h: seq<Happening>, t: uint32) {
    var next := h + [Sends(Order(t, 0), true)];
    Warned(next, |h|) == Dropped(next, |h|)
  }

  lemma RightAboutMeans(h: seq<Happening>, t: uint32)
    ensures var (sent, got) := (LastStamp(Orders(h)), NewestSince(h));
      RightAbout(h, t) <==> !(got < t <= sent) && !(sent < t <= got)
  {
    var next := h + [Sends(Order(t, 0), true)];
    assert next[..|h|] == h && next[|h|] == Sends(Order(t, 0), true);
    WarningIff(next, |h|);
  }

  lemma GotInRange(h: seq<Happening>)
    ensures NewestSince(h) <= UINT32_MAX
  {
    RegisterIsNewest(h);
  }

  /** After a history the warning is right about whatever comes next if and only if the
      last timestamp sent is the largest the device got since it started; where a last
      timestamp beyond 32 bits counts as the largest there is. */
  lemma WarningRightIff(h: seq<Happening>)
    ensures var sent := LastStamp(Orders(h));
      (forall t :: RightAbout(h, t)) <==> (if sent > UINT32_MAX then UINT32_MAX else sent) == NewestSince(h)
  {
    var sent, got := LastStamp(Orders(h)), NewestSince(h);
    forall t: uint32 ensures RightAbout(h, t) <==> !(got < t <= sent) && !(sent < t <= got) {
      RightAboutMeans(h, t);
    }
    GotInRange(h);
    var capped := if sent > UINT32_MAX then UINT32_MAX else sent;
    var t: uint32 := if capped > got then capped else got;
    assert capped != got ==> !RightAbout(h, t);
  }

  const AT_10 := Sends(Order(10, 300), true)
  const AT_5 := Sends(Order(5, 300), true)
  const AT_7 := Sends(Order(7, 300), true)

  /** Sends at 10, 5 and 7 seconds: the third is dropped without a warning. */
  lemma SilentDrop()
    ensures var h := [AT_10, AT_5, AT_7]; Dropped(h, 2) && !Warned(h, 2)
  {
    var h := [AT_10, AT_5, AT_7];
    assert h[..2] == [AT_10, AT_5] && [AT_10, AT_5][..1] == [AT_10] && [AT_10][..0] == [];
    assert NewestSince([AT_10]) == 10 && NewestSince([AT_10, AT_5]) == 10;
    assert LastStamp(Orders([AT_10, AT_5])) == 5;
    WarningIff(h, 2);
  }

  /** The device restarts between 10 and 5 seconds: the second order is warned about,
      and applied. */
  lemma FalseWarning()
    ensures var h := [AT_10, Restart, AT_5]; Warned(h, 2) && !Dropped(h, 2)
  {
    var h := [AT_10, Restart, AT_5];
    assert h[..2] == [AT_10, Restart] && [AT_10, Restart][..1] == [AT_10] && [AT_10][..0] == [];
    assert NewestSince([AT_10, Restart]) == 0;
    assert LastStamp(Orders([AT_10, Restart])) == 10 by { assert Orders([AT_10]) == [Order(10, 300)]; }
    WarningIff(h, 2);
  }
}

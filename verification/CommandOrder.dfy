/** What the threshold register makes of a stream of packets that may be reordered
    and duplicated: MQTT delivers QoS 1 messages at least once (section 4.3.2 of
    MQTT 3.1.1). */
module CommandOrder {
  import opened Wrappers
  import opened Bytes
  import opened PolicyEngine

  /** The register after a stream of packets. */
  function Deliver(packets: seq<seq<byte>>): Policy {
    if packets == [] then INITIAL_POLICY
    else Receive(Deliver(packets[..|packets| - 1]), Some(packets[|packets| - 1])).0
  }

  /** The reply to the `i`-th packet of the stream. */
  function ReplyTo(packets: seq<seq<byte>>, i: nat): Reply
    requires i < |packets|
  {
    Receive(Deliver(packets[..i]), Some(packets[i])).1
  }

  /** A valid command of the stream, at position `i`. */
  predicate Says(packets: seq<seq<byte>>, i: int, c: Command) {
    0 <= i < |packets| && Decode(packets[i]) == Some(c)
  }

  /** The register shows the largest valid timestamp with the threshold it first
      arrived with; the initial values if no valid timestamp is positive. */
  ghost predicate Reflects(packets: seq<seq<byte>>, p: Policy) {
    (forall i, c :: Says(packets, i, c) ==> c.timestamp <= p.lastCommandTimestamp) &&
    if p.lastCommandTimestamp == 0 then p == INITIAL_POLICY
    else exists i :: FirstSays(packets, i, Command(p.lastCommandTimestamp, p.moistureLow))
  }

  /** `c` arrives at `i`, and its timestamp never before. */
  ghost predicate FirstSays(packets: seq<seq<byte>>, i: int, c: Command) {
    Says(packets, i, c) && forall j, d :: Says(packets, j, d) && j < i ==> d.timestamp != c.timestamp
  }

  lemma SaysPrefix(packets: seq<seq<byte>>, k: nat, i: int, c: Command)
    requires k <= |packets|
    ensures Says(packets[..k], i, c) <==> i < k && Says(packets, i, c)
  {
  }

  lemma {:induction false} FinalReflects(packets: seq<seq<byte>>)
    ensures Reflects(packets, Deliver(packets))
  {
    if packets != [] {
      var k := |packets| - 1;
      FinalReflects(packets[..k]);
      StepReflects(packets, Deliver(packets[..k]));
    }
  }

  lemma StepReflects(packets: seq<seq<byte>>, p: Policy)
    requires packets != [] && Reflects(packets[..|packets| - 1], p)
    ensures Reflects(packets, Receive(p, Some(packets[|packets| - 1])).0)
  {
    var k := |packets| - 1;
    var q := Receive(p, Some(packets[k])).0;
    forall i, c | Says(packets, i, c) ensures c.timestamp <= q.lastCommandTimestamp {
      SaysPrefix(packets, k, i, c);
    }
    if q != p {
      var c := Command(q.lastCommandTimestamp, q.moistureLow);
      assert Says(packets, k, c);
      forall j, d | Says(packets, j, d) && j < k ensures d.timestamp != c.timestamp {
        SaysPrefix(packets, k, j, d);
      }
      assert FirstSays(packets, k, c);
    } else if p.lastCommandTimestamp != 0 {
      var c := Command(p.lastCommandTimestamp, p.moistureLow);
      var i :| FirstSays(packets[..k], i, c);
      SaysPrefix(packets, k, i, c);
      forall j, d | Says(packets, j, d) && j < i ensures d.timestamp != c.timestamp {
        SaysPrefix(packets, k, j, d);
      }
      assert FirstSays(packets, i, c);
    }
  }

  /** Reflecting the stream determines the register. */
  lemma ReflectsUnique(packets: seq<seq<byte>>, p: Policy, q: Policy)
    requires Reflects(packets, p) && Reflects(packets, q)
    ensures p == q
  {
    if p.lastCommandTimestamp > 0 {
      var i :| FirstSays(packets, i, Command(p.lastCommandTimestamp, p.moistureLow));
      assert q.lastCommandTimestamp >= p.lastCommandTimestamp;
    }
    if q.lastCommandTimestamp > 0 {
      var j :| FirstSays(packets, j, Command(q.lastCommandTimestamp, q.moistureLow));
      assert p.lastCommandTimestamp >= q.lastCommandTimestamp;
    }
  }

  /** Command `c` is positive and newer than every valid command before `i`. */
  ghost predicate NewerThanAllBefore(packets: seq<seq<byte>>, i: nat, c: Command) {
    c.timestamp > 0 && forall j, d :: Says(packets, j, d) && j < i ==> d.timestamp < c.timestamp
  }

  lemma NewerMeans(packets: seq<seq<byte>>, i: nat, c: Command)
    requires i <= |packets|
    ensures NewerThanAllBefore(packets, i, c) <==> c.timestamp > Deliver(packets[..i]).lastCommandTimestamp
  {
    var p := Deliver(packets[..i]);
    FinalReflects(packets[..i]);
    forall j, d | Says(packets, j, d) && j < i ensures d.timestamp <= p.lastCommandTimestamp {
      SaysPrefix(packets, i, j, d);
    }
    if p.lastCommandTimestamp > 0 {
      var c := Command(p.lastCommandTimestamp, p.moistureLow);
      var j :| FirstSays(packets[..i], j, c);
      SaysPrefix(packets, i, j, c);
    }
  }

  /** Exactly the valid packets with a positive timestamp above every earlier valid
      one are applied; the malformed ones are refused; the other valid ones are
      dropped as stale. */
  lemma AppliedExactly(packets: seq<seq<byte>>, i: nat)
    requires i < |packets|
    ensures ReplyTo(packets, i) == Invalid <==> forall c :: !Accepts(packets[i], c)
    ensures ReplyTo(packets, i) == Applied <==>
      exists c :: Accepts(packets[i], c) && NewerThanAllBefore(packets, i, c)
  {
    forall c ensures Accepts(packets[i], c) <==> Decode(packets[i]) == Some(c) {
      AcceptedLanguage(packets[i], c);
    }
    if Decode(packets[i]).Some? {
      var c := Decode(packets[i]).value;
      NewerMeans(packets, i, c);
      assert Accepts(packets[i], c);
    }
  }

  // ---- Convergence -------------------------------------------------------

  ghost predicate Carries(packets: seq<seq<byte>>, c: Command) {
    exists i :: Says(packets, i, c)
  }

  /** The two streams carry the same valid commands, in whatever order and number. */
  ghost predicate SameCommands(a: seq<seq<byte>>, b: seq<seq<byte>>) {
    forall c :: Carries(a, c) <==> Carries(b, c)
  }

  ghost predicate Newest(packets: seq<seq<byte>>, c: Command) {
    Carries(packets, c) && c.timestamp > 0 && forall d :: Carries(packets, d) ==> d.timestamp <= c.timestamp
  }

  /** The commands with the newest timestamp agree on the threshold. */
  ghost predicate NewestAgree(packets: seq<seq<byte>>) {
    forall c, d :: Newest(packets, c) && Newest(packets, d) ==> c == d
  }

  /** The register holds a newest command, or there is none. */
  lemma FinalIsNewest(packets: seq<seq<byte>>)
    ensures var p := Deliver(packets);
      if p.lastCommandTimestamp == 0 then
        p == INITIAL_POLICY && forall c :: !Newest(packets, c)
      else
        Newest(packets, Command(p.lastCommandTimestamp, p.moistureLow))
  {
    FinalReflects(packets);
    var p := Deliver(packets);
    forall c | Carries(packets, c) ensures c.timestamp <= p.lastCommandTimestamp {
      var i :| Says(packets, i, c);
    }
    if p.lastCommandTimestamp != 0 {
      var i :| FirstSays(packets, i, Command(p.lastCommandTimestamp, p.moistureLow));
      assert Says(packets, i, Command(p.lastCommandTimestamp, p.moistureLow));
    }
  }

  lemma Converges(a: seq<seq<byte>>, b: seq<seq<byte>>)
    requires SameCommands(a, b) && NewestAgree(a)
    ensures Deliver(a) == Deliver(b)
  {
    FinalIsNewest(a);
    FinalIsNewest(b);
    assert forall c :: Newest(a, c) <==> Newest(b, c);
  }

  /** A stream preceded by a second copy of its `i`-th packet carries the same commands. */
  lemma DuplicateInFront(packets: seq<seq<byte>>, i: nat)
    requires i < |packets|
    ensures SameCommands(packets, [packets[i]] + packets)
  {
    var b := [packets[i]] + packets;
    forall c ensures Carries(packets, c) <==> Carries(b, c) {
      if j :| Says(packets, j, c) { assert Says(b, j + 1, c); }
      if j :| Says(b, j, c) { assert Says(packets, if j == 0 then i else j - 1, c); }
    }
  }

  /** If a newest command comes first, its threshold is the one that stays. */
  lemma NewestInFront(packets: seq<seq<byte>>, i: nat, c: Command)
    requires Says(packets, i, c) && Newest(packets, c)
    ensures Deliver([packets[i]] + packets) == Policy(c.threshold, c.timestamp)
  {
    var b := [packets[i]] + packets;
    assert Says(b, 0, c);
    FinalReflects(b);
    var p := Deliver(b);
    var k :| FirstSays(b, k, Command(p.lastCommandTimestamp, p.moistureLow));
    assert Carries(b, Command(p.lastCommandTimestamp, p.moistureLow));
    DuplicateInFront(packets, i);
    assert p.lastCommandTimestamp == c.timestamp;
  }

  /** If the order never matters, every newest command is the one that stays. */
  lemma NewestStays(packets: seq<seq<byte>>, c: Command)
    requires forall b :: SameCommands(packets, b) ==> Deliver(b) == Deliver(packets)
    requires Newest(packets, c)
    ensures Deliver(packets) == Policy(c.threshold, c.timestamp)
  {
    var i :| Says(packets, i, c);
    DuplicateInFront(packets, i);
    NewestInFront(packets, i, c);
  }

  /** Convergence, exactly: every reordering and duplication of a stream leaves the
      register in the same state if and only if its newest commands agree. */
  lemma ConvergesIff(packets: seq<seq<byte>>)
    ensures (forall b :: SameCommands(packets, b) ==> Deliver(b) == Deliver(packets)) <==> NewestAgree(packets)
  {
    if NewestAgree(packets) {
      forall b | SameCommands(packets, b) ensures Deliver(b) == Deliver(packets) {
        Converges(packets, b);
      }
    }
    if forall b :: SameCommands(packets, b) ==> Deliver(b) == Deliver(packets) {
      forall c, d | Newest(packets, c) && Newest(packets, d) ensures c == d {
        NewestStays(packets, c);
        NewestStays(packets, d);
      }
    }
  }
}

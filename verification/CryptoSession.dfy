/** The session of the crypto compartment (src/crypto.cc): keys, the message id
    counter, and the framing of encrypted messages. The secretbox itself is a
    parameter with one law. */
module CryptoSession {
  import opened Wrappers
  import opened Bytes
  import opened Frames
  import opened TelemetryJson

  const HEADER_BYTES := 36
  const ENCRYPTED_MAX := 8 + 36 + 128

  type Key = seq<byte>

  /** An authenticated encryption of messages under a key and a message id. The
      last argument of `seal` is its randomness. */
  datatype SecretBox = SecretBox(
    seal: (Key, uint64, seq<byte>, nat) -> seq<byte>,
    open: (Key, uint64, seq<byte>) -> Option<seq<byte>>)

  /** Opening inverts sealing under the same key and id, and lengths differ by the header. */
  ghost predicate Lawful(box: SecretBox) {
    (forall k, id, m, r :: box.open(k, id, box.seal(k, id, m, r)) == Some(m)) &&
    (forall k, id, m, r :: |box.seal(k, id, m, r)| == HEADER_BYTES + |m|) &&
    (forall k, id, c :: box.open(k, id, c).Some? ==> |c| == HEADER_BYTES + |box.open(k, id, c).value|)
  }

  /** The law can be met. */
  lemma LawfulExists() returns (box: SecretBox)
    ensures Lawful(box)
  {
    box := SecretBox(
      (k: Key, id: uint64, m: seq<byte>, r: nat) => seq<byte>(HEADER_BYTES, _ => 0) + m,
      (k: Key, id: uint64, c: seq<byte>) => if |c| >= HEADER_BYTES then Some(c[HEADER_BYTES..]) else None);
    forall k: Key, id: uint64, m: seq<byte>, r: nat ensures box.open(k, id, box.seal(k, id, m, r)) == Some(m) {
      assert (seq<byte>(HEADER_BYTES, _ => 0) + m)[HEADER_BYTES..] == m;
    }
  }

  datatype Error = NotReady | BadArgument | SealFailed | ExchangeFailed | BadMessage | NoMemory

  datatype Outcome<+T> = Done(value: T) | Failed(error: Error)

  datatype Session = Session(ready: bool, msgId: uint64, txKey: Key, rxKey: Key)

  const NO_SESSION := Session(false, 0, [], [])

  // ---- The operations on values ------------------------------------------

  /** `kx` is what the key exchange yields: the two keys, or a failure. */
  function Init(s: Session, kx: Option<(Key, Key)>): (Session, Outcome<()>) {
    match kx
    case None => (s, Failed(ExchangeFailed))
    case Some((tx, rx)) => (Session(true, 0, tx, rx), Done(()))
  }

  /** `entropy` is None if the secretbox itself fails. */
  function Seal(box: SecretBox, s: Session, plain: seq<byte>, entropy: Option<nat>): (Session, Outcome<seq<byte>>) {
    if !s.ready then (s, Failed(NotReady))
    else if entropy.None? then (s, Failed(SealFailed))
    else
      (s.(msgId := (s.msgId + 1) % 0x1_0000_0000_0000_0000),
       Done(LeBytes(s.msgId, 8) + box.seal(s.txKey, s.msgId, plain, entropy.value)))
  }

  function Open(box: SecretBox, s: Session, frame: seq<byte>): Outcome<seq<byte>> {
    if !s.ready then Failed(NotReady)
    else if |frame| < 8 + HEADER_BYTES then Failed(BadArgument)
    else
      LeBound(frame[..8]);
      Pow256Of8();
      match box.open(s.rxKey, LeValue(frame[..8]), frame[8..])
      case Some(plain) => Done(plain)
      case None => Failed(BadMessage)
  }

  // ---- The compartment ---------------------------------------------------

  class Crypto {
    const box: SecretBox
    var ready: bool
    var msgId: uint64
    var txKey: Key
    var rxKey: Key

    ghost function State(): Session
      reads this
    {
      Session(ready, msgId, txKey, rxKey)
    }

    constructor (box: SecretBox)
      ensures this.box == box && State() == NO_SESSION
    {
      this.box := box;
      ready, msgId, txKey, rxKey := false, 0, [], [];
    }

    method InitSession(kx: Option<(Key, Key)>) returns (r: Outcome<()>)
      modifies this
      ensures (State(), r) == Init(old(State()), kx)
      ensures kx.None? ==> r == Failed(ExchangeFailed) && State() == old(State())
      ensures kx.Some? ==> r == Done(()) && ready && msgId == 0 && txKey == kx.value.0 && rxKey == kx.value.1
    {
      if kx.None? {
        return Failed(ExchangeFailed);
      }
      txKey, rxKey := kx.value.0, kx.value.1;
      ready := true;
      msgId := 0;
      r := Done(());
    }

    method EncryptPlain(plain: seq<byte>, entropy: Option<nat>) returns (r: Outcome<seq<byte>>)
      modifies this
      ensures (State(), r) == Seal(box, old(State()), plain, entropy)
    {
      if !ready {
        return Failed(NotReady);
      }
      var out := new byte[8](_ => 0);
      ShiftOut(msgId, out);
      if entropy.None? {
        return Failed(SealFailed);
      }
      r := Done(out[..8] + box.seal(txKey, msgId, plain, entropy.value));
      msgId := (msgId + 1) % 0x1_0000_0000_0000_0000;
    }

    /** crypto_encrypt: the JSON never overflows its buffer, so the only failures
        are a missing session and the secretbox, and the frame fits its maximum. */
    method Encrypt(reading: SensorReading, entropy: Option<nat>) returns (r: Outcome<seq<byte>>)
      requires Lawful(box)
      modifies this
      ensures (State(), r) == Seal(box, old(State()), Json(reading), entropy)
      ensures r.Done? ==> |r.value| <= ENCRYPTED_MAX
      ensures r != Failed(NoMemory)
    {
      if !ready {
        return Failed(NotReady);
      }
      var buffer := new PlainBuffer();
      var ok := buffer.Serialise(reading);
      if !ok {
        return Failed(NoMemory);
      }
      JsonLength(reading);
      r := EncryptPlain(buffer.plain[..buffer.pos], entropy);
    }

    method Decrypt(frame: seq<byte>) returns (r: Outcome<seq<byte>>)
      ensures r == Open(box, State(), frame)
    {
      if !ready {
        return Failed(NotReady);
      }
      if |frame| < 8 + HEADER_BYTES {
        return Failed(BadArgument);
      }
      var id := OrIn(frame);
      var plain := box.open(rxKey, id, frame[8..]);
      match plain {
        case Some(p) => r := Done(p);
        case None => r := Failed(BadMessage);
      }
    }
  }

  // ---- Message ids over whole runs ---------------------------------------

  datatype Op =
    | InitOp(kx: Option<(Key, Key)>)
    | SealOp(plain: seq<byte>, entropy: Option<nat>)
    | OpenOp(frame: seq<byte>)

  function Step(box: SecretBox, s: Session, op: Op): Session {
    match op
    case InitOp(kx) => Init(s, kx).0
    case SealOp(plain, entropy) => Seal(box, s, plain, entropy).0
    case OpenOp(_) => s
  }

  function After(box: SecretBox, ops: seq<Op>): Session {
    if ops == [] then NO_SESSION else Step(box, After(box, ops[..|ops| - 1]), ops[|ops| - 1])
  }

  /** The frame the `i`-th operation sends, if it succeeds in sending one. */
  function Sent(box: SecretBox, ops: seq<Op>, i: nat): Option<seq<byte>>
    requires i < |ops|
  {
    match ops[i]
    case SealOp(plain, entropy) =>
      (match Seal(box, After(box, ops[..i]), plain, entropy).1
       case Done(frame) => Some(frame)
       case Failed(_) => None)
    case _ => None
  }

  /** The `i`-th operation starts a new session. */
  predicate Starts(ops: seq<Op>, i: nat)
    requires i < |ops|
  {
    ops[i].InitOp? && ops[i].kx.Some?
  }

  /** How many frames were sent in `ops` from position `from` on. */
  function SentSince(box: SecretBox, ops: seq<Op>, from: nat, end: nat): nat
    requires from <= end <= |ops|
    decreases end - from
  {
    if from == end then 0
    else SentSince(box, ops, from, end - 1) + (if Sent(box, ops, end - 1).Some? then 1 else 0)
  }

  lemma AfterPrefix(box: SecretBox, ops: seq<Op>, i: nat)
    requires 0 < i <= |ops|
    ensures After(box, ops[..i]) == Step(box, After(box, ops[..i - 1]), ops[i - 1])
  {
    assert ops[..i][..i - 1] == ops[..i - 1];
  }

  lemma WrapAdd(n: nat, d: nat)
    ensures (n % 0x1_0000_0000_0000_0000 + d) % 0x1_0000_0000_0000_0000 == (n + d) % 0x1_0000_0000_0000_0000
  {
  }

  lemma CounterStep(box: SecretBox, ops: seq<Op>, i: nat)
    requires i < |ops| && After(box, ops[..i]).ready && !Starts(ops, i)
    ensures var (s, s') := (After(box, ops[..i]), After(box, ops[..i + 1]));
      s'.ready && s'.txKey == s.txKey && s'.rxKey == s.rxKey &&
      s'.msgId == (s.msgId + (if Sent(box, ops, i).Some? then 1 else 0)) % 0x1_0000_0000_0000_0000
  {
    AfterPrefix(box, ops, i + 1);
  }

  lemma CountNext(box: SecretBox, ops: seq<Op>, from: nat, i: nat)
    requires from <= i < |ops| && !Starts(ops, i) && After(box, ops[..i]).ready
    requires After(box, ops[..i]).msgId == SentSince(box, ops, from, i) % 0x1_0000_0000_0000_0000
    ensures var (s, s') := (After(box, ops[..i]), After(box, ops[..i + 1]));
      s'.ready && s'.txKey == s.txKey && s'.rxKey == s.rxKey &&
      s'.msgId == SentSince(box, ops, from, i + 1) % 0x1_0000_0000_0000_0000
  {
    CounterStep(box, ops, i);
    WrapAdd(SentSince(box, ops, from, i), if Sent(box, ops, i).Some? then 1 else 0);
  }

  /** The counter is the number of frames sent since the session started, and the keys
      are those of its exchange: failed calls of any kind change neither. */
  lemma {:induction false} CounterCounts(box: SecretBox, ops: seq<Op>, start: nat, end: nat)
    requires start < end <= |ops| && Starts(ops, start)
    requires forall j :: start < j < end ==> !Starts(ops, j)
    ensures var s := After(box, ops[..end]);
      s.ready && s.txKey == ops[start].kx.value.0 && s.rxKey == ops[start].kx.value.1 &&
      s.msgId == SentSince(box, ops, start + 1, end) % 0x1_0000_0000_0000_0000
    decreases end
  {
    if end == start + 1 {
      AfterPrefix(box, ops, end);
    } else {
      CounterCounts(box, ops, start, end - 1);
      CountNext(box, ops, start + 1, end - 1);
    }
  }

  /** The k-th frame of a session, counting from 0, begins with k as its id. */
  lemma IdOfFrame(box: SecretBox, ops: seq<Op>, start: nat, i: nat)
    requires start < i < |ops| && Starts(ops, start) && Sent(box, ops, i).Some?
    requires forall j :: start < j < i ==> !Starts(ops, j)
    ensures var frame := Sent(box, ops, i).value;
      |frame| >= 8 && LeValue(frame[..8]) == SentSince(box, ops, start + 1, i) % 0x1_0000_0000_0000_0000
  {
    CounterCounts(box, ops, start, i);
    var s := After(box, ops[..i]);
    IdRoundTrip(s.msgId);
    assert Sent(box, ops, i).value[..8] == LeBytes(s.msgId, 8);
  }

  lemma {:induction false} SentGrows(box: SecretBox, ops: seq<Op>, from: nat, i: nat, j: nat)
    requires from <= i < j <= |ops| && Sent(box, ops, i).Some?
    ensures SentSince(box, ops, from, i) < SentSince(box, ops, from, j)
    decreases j
  {
    if i + 1 < j {
      SentGrows(box, ops, from, i, j - 1);
    }
  }

  lemma IdBelowWrap(box: SecretBox, ops: seq<Op>, start: nat, i: nat)
    requires start < i < |ops| && Starts(ops, start) && Sent(box, ops, i).Some?
    requires forall j :: start < j < i ==> !Starts(ops, j)
    requires SentSince(box, ops, start + 1, i) < 0x1_0000_0000_0000_0000
    ensures |Sent(box, ops, i).value| >= 8
    ensures LeValue(Sent(box, ops, i).value[..8]) == SentSince(box, ops, start + 1, i)
  {
    IdOfFrame(box, ops, start, i);
    NoWrap(SentSince(box, ops, start + 1, i));
  }

  lemma NoWrap(n: nat)
    requires n < 0x1_0000_0000_0000_0000
    ensures n % 0x1_0000_0000_0000_0000 == n
  {
  }

  /** No id is used twice in a session of fewer than 2^64 frames. */
  lemma IdsAreFresh(box: SecretBox, ops: seq<Op>, start: nat, i: nat, j: nat)
    requires start < i < j < |ops| && Starts(ops, start)
    requires forall k :: start < k < j ==> !Starts(ops, k)
    requires Sent(box, ops, i).Some? && Sent(box, ops, j).Some?
    requires SentSince(box, ops, start + 1, j) < 0x1_0000_0000_0000_0000
    ensures |Sent(box, ops, i).value| >= 8 && |Sent(box, ops, j).value| >= 8
    ensures LeValue(Sent(box, ops, i).value[..8]) < LeValue(Sent(box, ops, j).value[..8])
  {
    SentGrows(box, ops, start + 1, i, j);
    IdBelowWrap(box, ops, start, i);
    IdBelowWrap(box, ops, start, j);
  }
}

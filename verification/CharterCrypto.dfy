/** The charter's end of the encrypted channel (charter/encryption.py), and what the
    two ends make of each other. */
module CharterCrypto {
  import opened Wrappers
  import opened Bytes
  import opened Frames
  import opened CryptoSession

  /** The two keys of a session as recover_session_keys returns them: the charter
      receives under what the device sends under, and the other way round. */
  datatype CharterKeys = CharterKeys(rxKey: Key, txKey: Key)

  function Recovered(deviceTx: Key, deviceRx: Key): CharterKeys {
    CharterKeys(deviceTx, deviceRx)
  }

  /** encrypt_command; an id of 2^64 or more does not fit eight bytes and raises. */
  function EncryptCommand(box: SecretBox, key: Key, msgId: nat, plain: seq<byte>, r: nat): Option<seq<byte>> {
    if msgId >= 0x1_0000_0000_0000_0000 then None
    else Some(LeBytes(msgId, 8) + box.seal(key, msgId, plain, r))
  }

  /** The message id in front of a frame. */
  function IdOf(frame: seq<byte>): (id: uint64)
    requires |frame| >= 8
  {
    LeBound(frame[..8]);
    Pow256Of8();
    LeValue(frame[..8])
  }

  /** decrypt_message: the id in front, the ciphertext behind. */
  function DecryptMessage(box: SecretBox, rxKey: Key, raw: seq<byte>): Outcome<seq<byte>> {
    if |raw| < 8 then Failed(BadArgument)
    else
      match box.open(rxKey, IdOf(raw), raw[8..])
      case Some(plain) => Done(plain)
      case None => Failed(BadMessage)
  }

  /** Sealing fails without a session or without entropy; only success takes an id, and
      nothing touches the keys. */
  lemma SealMeans(box: SecretBox, s: Session, plain: seq<byte>, entropy: Option<nat>)
    ensures var (t, r) := Seal(box, s, plain, entropy);
      (r == Failed(NotReady) <==> !s.ready) &&
      (r == Failed(SealFailed) <==> s.ready && entropy.None?) &&
      (r.Done? <==> s.ready && entropy.Some?) &&
      (r.Failed? ==> t == s) &&
      (r.Done? ==> t == s.(msgId := if s.msgId == 0xFFFF_FFFF_FFFF_FFFF then 0 else s.msgId + 1))
  {
  }

  /** What the device opens, and how it refuses the rest, in this order: no session, too
      short for id and header, or not sealed under its receiving key and that id. */
  lemma OpenMeans(box: SecretBox, s: Session, frame: seq<byte>)
    ensures Open(box, s, frame) == Failed(NotReady) <==> !s.ready
    ensures Open(box, s, frame) == Failed(BadArgument) <==> s.ready && |frame| < 44
    ensures Open(box, s, frame) == Failed(BadMessage) <==>
      s.ready && |frame| >= 44 && box.open(s.rxKey, IdOf(frame), frame[8..]) == None
    ensures forall plain :: Open(box, s, frame) == Done(plain) <==>
      s.ready && |frame| >= 44 && box.open(s.rxKey, IdOf(frame), frame[8..]) == Some(plain)
  {
  }

  lemma FrameParts(msgId: uint64, sealed: seq<byte>)
    ensures var frame := LeBytes(msgId, 8) + sealed; IdOf(frame) == msgId && frame[8..] == sealed
  {
    IdRoundTrip(msgId);
    assert (LeBytes(msgId, 8) + sealed)[..8] == LeBytes(msgId, 8);
  }

  /** The device opens what the charter encrypts under the device's receiving key,
      whatever the message id. */
  lemma FrameOpens(box: SecretBox, s: Session, msgId: uint64, plain: seq<byte>, r: nat)
    requires Lawful(box) && s.ready
    ensures EncryptCommand(box, s.rxKey, msgId, plain, r).Some?
    ensures Open(box, s, EncryptCommand(box, s.rxKey, msgId, plain, r).value) == Done(plain)
    ensures |EncryptCommand(box, s.rxKey, msgId, plain, r).value| == 8 + HEADER_BYTES + |plain|
  {
    var sealed := box.seal(s.rxKey, msgId, plain, r);
    FrameParts(msgId, sealed);
    OpenMeans(box, s, LeBytes(msgId, 8) + sealed);
  }

  /** A frame of the charter names its id, and every session with its key opens it. */
  lemma OpensEverywhere(box: SecretBox, key: Key, msgId: uint64, plain: seq<byte>, r: nat)
    requires Lawful(box)
    ensures EncryptCommand(box, key, msgId, plain, r).Some?
    ensures var frame := EncryptCommand(box, key, msgId, plain, r).value;
      |frame| >= 8 && LeValue(frame[..8]) == msgId &&
      forall s: Session :: s.ready && s.rxKey == key ==> Open(box, s, frame) == Done(plain)
  {
    FrameParts(msgId, box.seal(key, msgId, plain, r));
    forall s: Session | s.ready && s.rxKey == key
      ensures Open(box, s, EncryptCommand(box, key, msgId, plain, r).value) == Done(plain)
    {
      FrameOpens(box, s, msgId, plain, r);
    }
  }

  /** The charter opens what the device seals, whatever the message id. */
  lemma SealedOpens(box: SecretBox, s: Session, plain: seq<byte>, entropy: nat)
    requires Lawful(box) && s.ready
    ensures var r := Seal(box, s, plain, Some(entropy)).1;
      r.Done? && |r.value| == 8 + HEADER_BYTES + |plain| && DecryptMessage(box, s.txKey, r.value) == Done(plain)
  {
    FrameParts(s.msgId, box.seal(s.txKey, s.msgId, plain, entropy));
  }

  /** The handshake, from both ends. After a successful exchange that yields (tx, rx) to
      the device, whatever was there before, the device opens what the charter encrypts
      under its recovered sending key, and the charter opens under its recovered
      receiving key what the device seals, with 0 as the first id. */
  lemma Handshake(box: SecretBox, before: Session, tx: Key, rx: Key, msgId: uint64, plain: seq<byte>, r: nat)
    requires Lawful(box)
    ensures var s := Init(before, Some((tx, rx))).0; var keys := Recovered(tx, rx);
      EncryptCommand(box, keys.txKey, msgId, plain, r).Some? &&
      Open(box, s, EncryptCommand(box, keys.txKey, msgId, plain, r).value) == Done(plain) &&
      var sent := Seal(box, s, plain, Some(r)).1;
      sent.Done? && DecryptMessage(box, keys.rxKey, sent.value) == Done(plain) &&
      |sent.value| >= 8 && IdOf(sent.value) == 0
  {
    var s := Init(before, Some((tx, rx))).0;
    FrameOpens(box, s, msgId, plain, r);
    SealedOpens(box, s, plain, r);
    FrameParts(0, box.seal(tx, 0, plain, r));
  }

  /** After any run of calls since the last successful exchange, the two ends still
      understand each other in both directions. */
  lemma StillUnderstood(box: SecretBox, ops: seq<Op>, start: nat, msgId: uint64, plain: seq<byte>, r: nat)
    requires Lawful(box) && start < |ops| && Starts(ops, start) && forall j :: start < j < |ops| ==> !Starts(ops, j)
    ensures var keys := Recovered(ops[start].kx.value.0, ops[start].kx.value.1); var s := After(box, ops);
      EncryptCommand(box, keys.txKey, msgId, plain, r).Some? &&
      Open(box, s, EncryptCommand(box, keys.txKey, msgId, plain, r).value) == Done(plain) &&
      var sent := Seal(box, s, plain, Some(r)).1;
      sent.Done? && DecryptMessage(box, keys.rxKey, sent.value) == Done(plain)
  {
    CounterCounts(box, ops, start, |ops|);
    assert ops[..|ops|] == ops;
    var s := After(box, ops);
    FrameOpens(box, s, msgId, plain, r);
    SealedOpens(box, s, plain, r);
  }
}

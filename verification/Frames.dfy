/** The eight-byte little-endian message id in front of every encrypted message:
    the shift loops of src/crypto.cc and the conversions of charter/encryption.py. */
module Frames {
  import opened Bytes

  function Pow256(k: nat): (r: nat)
    ensures r >= 1
  {
    if k == 0 then 1 else 256 * Pow256(k - 1)
  }

  /** `k` bytes of `n`, least significant first, as int.to_bytes lays them out. */
  function LeBytes(n: nat, k: nat): (r: seq<byte>)
    ensures |r| == k
  {
    if k == 0 then [] else [n % 256] + LeBytes(n / 256, k - 1)
  }

  /** The number of a little-endian byte string, as int.from_bytes reads it. */
  function LeValue(s: seq<byte>): nat {
    if s == [] then 0 else s[0] + 256 * LeValue(s[1..])
  }

  lemma {:induction false} LeRoundTrip(n: nat, k: nat)
    requires n < Pow256(k)
    ensures LeValue(LeBytes(n, k)) == n
  {
    if k > 0 {
      LeRoundTrip(n / 256, k - 1);
      assert LeBytes(n, k)[1..] == LeBytes(n / 256, k - 1);
    }
  }

  lemma {:induction false} LeBytesOfValue(s: seq<byte>)
    ensures LeBytes(LeValue(s), |s|) == s
  {
    if s != [] {
      var v := LeValue(s[1..]);
      LeBytesOfValue(s[1..]);
      LowByte(s[0], v);
      assert s == [s[0]] + s[1..];
    }
  }

  lemma LowByte(b: byte, v: nat)
    ensures (b + 256 * v) % 256 == b && (b + 256 * v) / 256 == v
  {
  }

  lemma {:induction false} LeBound(s: seq<byte>)
    ensures LeValue(s) < Pow256(|s|)
  {
    if s != [] {
      LeBound(s[1..]);
    }
  }

  lemma {:induction false} LeAppend(s: seq<byte>, b: byte)
    ensures LeValue(s + [b]) == LeValue(s) + b * Pow256(|s|)
  {
    if s == [] {
      assert [b][1..] == [];
      assert s + [b] == [b];
    } else {
      LeAppend(s[1..], b);
      assert (s + [b])[1..] == s[1..] + [b];
      assert 256 * (b * Pow256(|s| - 1)) == b * (256 * Pow256(|s| - 1));
    }
  }

  /** `n` shifted right by `k` bytes. */
  function ShiftRight(n: nat, k: nat): nat {
    if k == 0 then n else ShiftRight(n / 256, k - 1)
  }

  /** `n` shifted left by `k` bytes. */
  function ShiftLeft(n: nat, k: nat): nat {
    n * Pow256(k)
  }

  lemma {:induction false} LeDigit(n: nat, k: nat, i: nat)
    requires i < k
    ensures LeBytes(n, k)[i] == ShiftRight(n, i) % 256
  {
    if i > 0 {
      LeDigit(n / 256, k - 1, i - 1);
    }
  }

  // ---- The device's loops ------------------------------------------------

  /** Bitwise or of natural numbers. */
  function BitOr(a: nat, b: nat): nat
    decreases a + b
  {
    if a == 0 then b
    else if b == 0 then a
    else 2 * BitOr(a / 2, b / 2) + (if a % 2 == 1 || b % 2 == 1 then 1 else 0)
  }

  function Pow2(k: nat): (r: nat)
    ensures r >= 1
  {
    if k == 0 then 1 else 2 * Pow2(k - 1)
  }

  /** Or is addition when the operands have no bit in common. */
  lemma {:induction false} OrDisjoint(a: nat, b: nat, k: nat)
    requires a < Pow2(k)
    ensures BitOr(a, b * Pow2(k)) == a + b * Pow2(k)
  {
    if k > 0 && a > 0 && b > 0 {
      var half := b * Pow2(k - 1);
      OrDisjoint(a / 2, b, k - 1);
      Doubled(b, Pow2(k - 1));
      assert half > 0;
      OrStep(a, half);
    } else if b == 0 {
      assert b * Pow2(k) == 0;
    }
  }

  lemma Doubled(b: nat, m: nat)
    ensures b * (2 * m) == 2 * (b * m)
  {
  }

  lemma OrStep(a: nat, half: nat)
    requires a > 0 && half > 0
    ensures BitOr(a, 2 * half) == 2 * BitOr(a / 2, half) + a % 2
  {
    assert 2 * half / 2 == half && 2 * half % 2 == 0;
  }

  lemma {:induction false} Pow256IsPow2(k: nat)
    ensures Pow256(k) == Pow2(8 * k)
  {
    if k > 0 {
      Pow256IsPow2(k - 1);
      var j := 8 * (k - 1);
      assert Pow2(j + 4) == 16 * Pow2(j) by { assert Pow2(j + 2) == 4 * Pow2(j); }
      assert Pow2(j + 8) == 16 * Pow2(j + 4) by { assert Pow2(j + 6) == 4 * Pow2(j + 4); }
    }
  }

  /** encrypt_plain's loop: byte `i` is the id shifted right by 8 * i, truncated. */
  method ShiftOut(msgId: uint64, out: array<byte>)
    requires out.Length >= 8
    modifies out
    ensures out[..8] == LeBytes(msgId, 8) && out[8..] == old(out[8..])
  {
    var i := 0;
    while i < 8
      invariant 0 <= i <= 8
      invariant forall k :: 0 <= k < i ==> out[k] == LeBytes(msgId, 8)[k]
      invariant forall k :: 8 <= k < out.Length ==> out[k] == old(out[k])
    {
      LeDigit(msgId, 8, i);
      out[i] := ShiftRight(msgId, i) % 256;
      i := i + 1;
    }
  }

  lemma OrInStep(s: seq<byte>, i: nat)
    requires i < |s|
    ensures BitOr(LeValue(s[..i]), ShiftLeft(s[i], i)) == LeValue(s[..i + 1])
  {
    LeBound(s[..i]);
    LeAppend(s[..i], s[i]);
    assert s[..i + 1] == s[..i] + [s[i]];
    Pow256IsPow2(i);
    OrDisjoint(LeValue(s[..i]), s[i], 8 * i);
  }

  /** crypto_decrypt's loop: byte `i`, shifted left by 8 * i, is or-ed in. */
  method OrIn(inBuf: seq<byte>) returns (msgId: uint64)
    requires |inBuf| >= 8
    ensures msgId == LeValue(inBuf[..8])
  {
    var acc: nat := 0;
    var i := 0;
    while i < 8
      invariant 0 <= i <= 8 && acc == LeValue(inBuf[..i])
    {
      OrInStep(inBuf, i);
      acc := BitOr(acc, ShiftLeft(inBuf[i], i));
      i := i + 1;
    }
    LeBound(inBuf[..8]);
    Pow256Of8();
    msgId := acc;
  }

  lemma Pow256Of8()
    ensures Pow256(8) == 0x1_0000_0000_0000_0000
  {
    assert Pow256(4) == 0x1_0000_0000;
    assert Pow256(8) == 256 * (256 * (256 * (256 * Pow256(4))));
  }

  /** A 64-bit id survives the frame in both directions, device to charter and back. */
  lemma IdRoundTrip(msgId: uint64)
    ensures LeValue(LeBytes(msgId, 8)) == msgId
  {
    Pow256Of8();
    LeRoundTrip(msgId, 8);
  }
}

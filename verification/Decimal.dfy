/** Decimal numerals: the reference printer and reader behind the three digit
    loops of the firmware (src/crypto.cc, src/display/display.cc,
    src/policy_engine.cc), and the loops themselves. */
module Decimal {
  import opened Bytes

  predicate IsDigit(b: byte) {
    48 <= b <= 57
  }

  predicate AllDigits(s: seq<byte>) {
    forall i :: 0 <= i < |s| ==> IsDigit(s[i])
  }

  /** The number a digit string denotes. */
  function Value(s: seq<byte>): nat
    requires AllDigits(s)
  {
    if s == [] then 0 else Value(s[..|s| - 1]) * 10 + (s[|s| - 1] - 48)
  }

  /** The numeral of a number. */
  function Numeral(n: nat): (r: seq<byte>)
    ensures AllDigits(r) && |r| > 0
  {
    if n < 10 then [48 + n] else Numeral(n / 10) + [48 + n % 10]
  }

  /** No leading zero, as section 6 of RFC 8259 demands of a number. */
  predicate Canonical(s: seq<byte>) {
    AllDigits(s) && |s| > 0 && (s[0] == 48 ==> |s| == 1)
  }

  lemma {:induction false} NumeralCanonical(n: nat)
    ensures Canonical(Numeral(n)) && (Numeral(n)[0] == 48 <==> n == 0)
  {
    if n >= 10 {
      NumeralCanonical(n / 10);
    }
  }

  lemma {:induction false} ValueOfNumeral(n: nat)
    ensures Value(Numeral(n)) == n
  {
    if n >= 10 {
      ValueOfNumeral(n / 10);
      assert Numeral(n)[..|Numeral(n)| - 1] == Numeral(n / 10);
    }
  }

  /** The canonical digit strings are exactly the numerals. */
  lemma {:induction false} NumeralOfValue(s: seq<byte>)
    requires Canonical(s)
    ensures Numeral(Value(s)) == s
  {
    var k := |s| - 1;
    if k == 0 {
      assert s[..0] == [];
      assert s == [s[0]];
    } else {
      NumeralOfValue(s[..k]);
      PositiveValue(s[..k]);
      LastDigit(Value(s[..k]), s[k]);
      assert s == s[..k] + [s[k]];
    }
  }

  lemma LastDigit(n: nat, d: byte)
    requires n > 0 && IsDigit(d)
    ensures Numeral(n * 10 + (d - 48)) == Numeral(n) + [d]
  {
    var m := n * 10 + (d - 48);
    assert m / 10 == n && m % 10 == d - 48;
  }

  lemma {:induction false} PositiveValue(s: seq<byte>)
    requires AllDigits(s) && |s| > 0 && s[0] != 48
    ensures Value(s) > 0
  {
    if |s| > 1 {
      PositiveValue(s[..|s| - 1]);
    }
  }

  lemma NumeralInjective(m: nat, n: nat)
    requires Numeral(m) == Numeral(n)
    ensures m == n
  {
    ValueOfNumeral(m);
    ValueOfNumeral(n);
  }

  function Pow10(k: nat): nat {
    if k == 0 then 1 else 10 * Pow10(k - 1)
  }

  lemma {:induction false} NumeralLength(n: nat, k: nat)
    requires k > 0
    ensures |Numeral(n)| <= k <==> n < Pow10(k)
  {
    if n >= 10 {
      if k == 1 {
        assert Pow10(1) == 10;
      } else {
        NumeralLength(n / 10, k - 1);
      }
    } else {
      Pow10Positive(k - 1);
    }
  }

  lemma {:induction false} Pow10Positive(k: nat)
    ensures Pow10(k) >= 1
  {
    if k > 0 {
      Pow10Positive(k - 1);
    }
  }

  /** The widths the firmware's buffers are made for. */
  lemma Widths(n: nat)
    ensures n <= UINT32_MAX ==> |Numeral(n)| <= 10
    ensures n <= UINT16_MAX ==> |Numeral(n)| <= 5
    ensures n < 10 <==> |Numeral(n)| == 1
  {
    NumeralLength(n, 10);
    NumeralLength(n, 5);
    NumeralLength(n, 1);
  }

  /** A longer digit string denotes at least as much. */
  lemma {:induction false} ValueMonotone(s: seq<byte>, k: nat)
    requires AllDigits(s) && k <= |s|
    ensures Value(s[..k]) <= Value(s)
    decreases |s|
  {
    if k == |s| {
      assert s[..k] == s;
    } else {
      ValueMonotone(s[..|s| - 1], k);
      assert s[..|s| - 1][..k] == s[..k];
    }
  }

  /** Where the run of digits that starts at `pos` ends. */
  function RunEnd(s: seq<byte>, pos: nat): (e: nat)
    requires pos <= |s|
    ensures pos <= e <= |s| && AllDigits(s[pos..e])
    ensures e < |s| ==> !IsDigit(s[e])
    decreases |s| - pos
  {
    if pos < |s| && IsDigit(s[pos]) then
      var e := RunEnd(s, pos + 1);
      assert s[pos..e] == [s[pos]] + s[pos + 1..e];
      e
    else pos
  }

  lemma {:induction false} RunEndUnique(s: seq<byte>, pos: nat, e: nat)
    requires pos <= e <= |s| && AllDigits(s[pos..e]) && (e < |s| ==> !IsDigit(s[e]))
    ensures RunEnd(s, pos) == e
    decreases e - pos
  {
    if pos < e {
      assert s[pos..e][0] == s[pos];
      assert s[pos + 1..e] == s[pos..e][1..];
      RunEndUnique(s, pos + 1, e);
    }
  }

  /** A digit string between other text is the run found there. */
  lemma RunOf(a: seq<byte>, d: seq<byte>, c: seq<byte>)
    requires AllDigits(d) && (c != [] ==> !IsDigit(c[0]))
    ensures RunEnd(a + d + c, |a|) == |a| + |d| && (a + d + c)[|a|..|a| + |d|] == d
  {
    var s := a + d + c;
    assert s[|a|..|a| + |d|] == d;
    RunEndUnique(s, |a|, |a| + |d|);
  }

  function Reversed(s: seq<byte>): (r: seq<byte>)
    ensures |r| == |s| && forall i :: 0 <= i < |s| ==> r[i] == s[|s| - 1 - i]
  {
    seq(|s|, i requires 0 <= i < |s| => s[|s| - 1 - i])
  }

  lemma ReversedAppend(s: seq<byte>, b: byte)
    ensures Reversed(s + [b]) == [b] + Reversed(s)
  {
  }

  /** `out` holds the low digits of `v`, lowest first, and `rest` the remaining ones. */
  predicate Emitting(v: nat, rest: nat, out: seq<byte>) {
    Numeral(v) == (if rest > 0 then Numeral(rest) else []) + Reversed(out)
  }

  lemma EmitStep(v: nat, rest: nat, out: seq<byte>)
    requires rest > 0 && Emitting(v, rest, out)
    ensures Emitting(v, rest / 10, out + [48 + rest % 10])
    ensures |out| < |Numeral(v)|
  {
    ReversedAppend(out, 48 + rest % 10);
  }

  /** The digits of crypto_encrypt's writeUint: low digit first into an eleven-byte
      buffer, then reversed in place. */
  method WriteUint(v: uint32) returns (tmp: array<byte>, len: nat)
    ensures fresh(tmp) && tmp.Length == 11 && len <= 10 && tmp[..len] == Numeral(v)
  {
    tmp := new byte[11](_ => 0);
    len := 0;
    if v == 0 {
      tmp[0] := 48;
      len := 1;
      assert tmp[..1] == Numeral(0);
    } else {
      Widths(v);
      var rest := v;
      while rest > 0
        invariant 0 <= rest <= v && len <= 10
        invariant Emitting(v, rest, tmp[..len])
      {
        EmitStep(v, rest, tmp[..len]);
        tmp[len] := 48 + rest % 10;
        assert tmp[..len + 1] == tmp[..len] + [48 + rest % 10];
        len, rest := len + 1, rest / 10;
      }
      ReverseInPlace(tmp, len);
    }
  }

  /** The swap loop, from both ends inwards. */
  method ReverseInPlace(tmp: array<byte>, len: nat)
    requires len <= tmp.Length
    modifies tmp
    ensures tmp[..len] == Reversed(old(tmp[..len])) && tmp[len..] == old(tmp[len..])
  {
    var i, j := 0, len - 1;
    while i < j
      invariant 0 <= i <= len && j == len - 1 - i && i <= j + 1
      invariant forall k :: 0 <= k < i ==> tmp[k] == old(tmp[len - 1 - k]) && tmp[len - 1 - k] == old(tmp[k])
      invariant forall k :: i <= k <= j ==> tmp[k] == old(tmp[k])
      invariant forall k :: len <= k < tmp.Length ==> tmp[k] == old(tmp[k])
    {
      tmp[i], tmp[j] := tmp[j], tmp[i];
      i, j := i + 1, j - 1;
    }
  }

  /** The do-while of append_uint: the digits of `v`, low digit first. */
  method EmitLowFirst(tmp: array<byte>, v: uint32) returns (n: nat)
    requires tmp.Length == 10
    modifies tmp
    ensures 1 <= n <= 10 && Reversed(tmp[..n]) == Numeral(v)
  {
    Widths(v);
    tmp[0] := 48 + v % 10;
    n := 1;
    var rest := v / 10;
    assert tmp[..1] == [48 + v % 10];
    while rest > 0
      invariant 0 <= rest <= v && 1 <= n <= 10
      invariant Emitting(v, rest, tmp[..n])
    {
      EmitStep(v, rest, tmp[..n]);
      tmp[n] := 48 + rest % 10;
      assert tmp[..n + 1] == tmp[..n] + [48 + rest % 10];
      n, rest := n + 1, rest / 10;
    }
  }

  /** append_uint of the display: the digits go low first into ten bytes and are
      copied backwards to where `p` points. Returns the advanced pointer. */
  method AppendUint(line: array<byte>, p: nat, v: uint32) returns (q: nat)
    requires p + |Numeral(v)| <= line.Length
    modifies line
    ensures q == p + |Numeral(v)| <= line.Length
    ensures line[..q] == old(line[..p]) + Numeral(v) && line[q..] == old(line[q..])
  {
    var tmp := new byte[10](_ => 0);
    var n := EmitLowFirst(tmp, v);
    ghost var digits := Numeral(v);
    q := p;
    var i := n - 1;
    while i >= 0
      invariant -1 <= i < n && q == p + (n - 1 - i)
      invariant digits == Reversed(tmp[..n])
      invariant forall k :: 0 <= k < p ==> line[k] == old(line[k])
      invariant forall k :: p <= k < q ==> line[k] == digits[k - p]
      invariant forall k :: q <= k < line.Length ==> line[k] == old(line[k])
    {
      assert tmp[i] == tmp[..n][i] == digits[n - 1 - i];
      line[q] := tmp[i];
      q, i := q + 1, i - 1;
    }
  }
}

/** Strings in JSON (section 7 of RFC 8259): a reader of what json.dumps writes between
    the quotes, and what it makes of every device name. */
module JsonStrings {
  import opened Wrappers
  import opened Bytes
  import opened Attestation
  import opened AttestationTexts

  // ---- The reader --------------------------------------------------------

  /** Four hexadecimal digits. */
  function FourDigits(s: seq<byte>): Option<nat>
    requires |s| == 4
  {
    var a, b, c, d := Nibble(s[0]), Nibble(s[1]), Nibble(s[2]), Nibble(s[3]);
    if a.None? || b.None? || c.None? || d.None? then None
    else Some(((a.value * 16 + b.value) * 16 + c.value) * 16 + d.value)
  }

  /** A 16-bit unit of the string and the number of bytes that spell it. */
  datatype Unit = Unit(code: nat, width: nat)

  function ShortEscape(c: byte): Option<nat> {
    match c
    case 34 => Some(34)
    case 92 => Some(92)
    case 47 => Some(47)
    case 98 => Some(8)
    case 102 => Some(12)
    case 110 => Some(10)
    case 114 => Some(13)
    case 116 => Some(9)
    case _ => None
  }

  function NextUnit(s: seq<byte>): (r: Option<Unit>)
    ensures r.Some? ==> 0 < r.value.width <= |s|
  {
    if s == [] || s[0] < 32 || s[0] == 34 then None
    else if s[0] != 92 then Some(Unit(s[0], 1))
    else if |s| < 2 then None
    else if s[1] == 117 then
      if |s| < 6 || FourDigits(s[2..6]).None? then None else Some(Unit(FourDigits(s[2..6]).value, 6))
    else if ShortEscape(s[1]).None? then None
    else Some(Unit(ShortEscape(s[1]).value, 2))
  }

  predicate High(c: nat) {
    0xD800 <= c < 0xDC00
  }

  predicate Low(c: nat) {
    0xDC00 <= c < 0xE000
  }

  /** The character a surrogate pair stands for. */
  function Pair(high: nat, low: nat): CodePoint
    requires High(high) && Low(low)
  {
    0x1_0000 + (high - 0xD800) * 0x400 + (low - 0xDC00)
  }

  function ReadString(s: seq<byte>): Option<seq<nat>> {
    if s == [] then Some([])
    else
      match NextUnit(s)
      case None => None
      case Some(u) =>
        var v := NextUnit(s[u.width..]);
        if High(u.code) && v.Some? && Low(v.value.code) then
          Prepend(Pair(u.code, v.value.code), ReadString(s[u.width + v.value.width..]))
        else Prepend(u.code, ReadString(s[u.width..]))
  }

  function Prepend(c: nat, rest: Option<seq<nat>>): Option<seq<nat>> {
    match rest
    case None => None
    case Some(t) => Some([c] + t)
  }

  // ---- What it makes of an escaped name ----------------------------------

  lemma Regroup(a: seq<byte>, b: seq<byte>, c: seq<byte>)
    ensures a + b + c == a + (b + c)
  {
  }

  lemma {:induction false} EscapeOne(c: CodePoint)
    ensures Escape([c]) == Escaped(c)
  {
    EscapeNext([], c);
    assert [] + [c] == [c] && [] + Escaped(c) == Escaped(c);
  }

  lemma {:induction false} FrontStep(c: CodePoint, front: seq<CodePoint>, d: CodePoint)
    requires Escape([c] + front) == Escaped(c) + Escape(front)
    ensures Escape([c] + (front + [d])) == Escaped(c) + Escape(front + [d])
  {
    EscapeNext([c] + front, d);
    EscapeNext(front, d);
    Regroup(Escaped(c), Escape(front), Escaped(d));
    assert [c] + (front + [d]) == [c] + front + [d];
  }

  lemma {:induction false} EscapeFront(c: CodePoint, t: seq<CodePoint>)
    ensures Escape([c] + t) == Escaped(c) + Escape(t)
    decreases |t|
  {
    if t == [] {
      EscapeOne(c);
      assert [c] + [] == [c] && Escaped(c) + [] == Escaped(c);
    } else {
      var k := |t| - 1;
      EscapeFront(c, t[..k]);
      FrontStep(c, t[..k], t[k]);
      assert t == t[..k] + [t[k]];
    }
  }

  lemma NibbleOf(n: nat)
    requires n < 16
    ensures Nibble(HexDigit(n)) == Some(n)
  {
  }

  lemma FourNibbles(n: nat)
    requires n < 0x1_0000
    ensures n / 4096 < 16 && n == ((n / 4096 * 16 + n / 256 % 16) * 16 + n / 16 % 16) * 16 + n % 16
  {
  }

  lemma EscapeIsUnit(n: nat, rest: seq<byte>)
    requires n < 0x1_0000
    ensures NextUnit(UnicodeEscape(n) + rest) == Some(Unit(n, 6))
  {
    var s := UnicodeEscape(n) + rest;
    FourNibbles(n);
    NibbleOf(n / 4096);
    NibbleOf(n / 256 % 16);
    NibbleOf(n / 16 % 16);
    NibbleOf(n % 16);
    assert s[2..6] == [HexDigit(n / 4096), HexDigit(n / 256 % 16), HexDigit(n / 16 % 16), HexDigit(n % 16)];
  }

  /** A character of the first plane is one unit. */
  lemma PlainIsUnit(c: CodePoint, rest: seq<byte>)
    requires c < 0x1_0000
    ensures NextUnit(Escaped(c) + rest) == Some(Unit(c, |Escaped(c)|))
  {
    if !(32 <= c < 127) && c != 8 && c != 9 && c != 10 && c != 12 && c != 13 {
      EscapeIsUnit(c, rest);
    }
  }

  /** The two units of a character beyond it. */
  function HighOf(c: CodePoint): (h: nat)
    requires c >= 0x1_0000
    ensures High(h)
  {
    0xD800 + (c - 0x1_0000) / 0x400
  }

  function LowOf(c: CodePoint): (l: nat)
    requires c >= 0x1_0000
    ensures Low(l)
  {
    0xDC00 + (c - 0x1_0000) % 0x400
  }

  lemma PairOfParts(c: CodePoint)
    requires c >= 0x1_0000
    ensures Pair(HighOf(c), LowOf(c)) == c
  {
  }

  lemma BeyondIsPair(c: CodePoint, rest: seq<byte>)
    requires c >= 0x1_0000
    ensures var s := Escaped(c) + rest;
      NextUnit(s) == Some(Unit(HighOf(c), 6)) && NextUnit(s[6..]) == Some(Unit(LowOf(c), 6)) && s[12..] == rest
  {
    var tail := UnicodeEscape(LowOf(c)) + rest;
    assert Escaped(c) + rest == UnicodeEscape(HighOf(c)) + tail;
    EscapeIsUnit(HighOf(c), tail);
    EscapeIsUnit(LowOf(c), rest);
    assert (UnicodeEscape(HighOf(c)) + tail)[6..] == tail;
    assert tail[6..] == rest;
  }

  /** The first unit of a string. */
  function FirstUnit(t: seq<CodePoint>): nat
    requires t != []
  {
    if t[0] < 0x1_0000 then t[0] else HighOf(t[0])
  }

  lemma StartsWithUnit(t: seq<CodePoint>)
    ensures var u := NextUnit(Escape(t));
      if t == [] then u.None? else u.Some? && u.value.code == FirstUnit(t)
  {
    if t != [] {
      assert t == [t[0]] + t[1..];
      EscapeFront(t[0], t[1..]);
      if t[0] < 0x1_0000 {
        PlainIsUnit(t[0], Escape(t[1..]));
      } else {
        BeyondIsPair(t[0], Escape(t[1..]));
      }
    }
  }

  /** A lone half of a pair in front of the other half. */
  predicate SplitAt(s: seq<CodePoint>, i: nat) {
    i + 1 < |s| && High(s[i]) && Low(s[i + 1])
  }

  /** The string with such halves joined. */
  function Joined(s: seq<CodePoint>): (r: seq<nat>)
    ensures |r| <= |s|
  {
    if s == [] then []
    else if SplitAt(s, 0) then [Pair(s[0], s[1])] + Joined(s[2..])
    else [s[0]] + Joined(s[1..])
  }

  lemma Peel(s: seq<CodePoint>)
    requires s != []
    ensures Escape(s) == Escaped(s[0]) + Escape(s[1..])
    ensures |Escaped(s[0])| <= |Escape(s)| && Escape(s)[|Escaped(s[0])|..] == Escape(s[1..])
  {
    assert s == [s[0]] + s[1..];
    EscapeFront(s[0], s[1..]);
    Behind(Escaped(s[0]), Escape(s[1..]));
  }

  lemma Behind(a: seq<byte>, b: seq<byte>)
    ensures (a + b)[|a|..] == b
  {
  }

  lemma ReadOne(s: seq<byte>, c: nat, w: nat)
    requires NextUnit(s) == Some(Unit(c, w))
    requires High(c) ==> NextUnit(s[w..]).None? || !Low(NextUnit(s[w..]).value.code)
    ensures ReadString(s) == Prepend(c, ReadString(s[w..]))
  {
  }

  lemma ReadPair(s: seq<byte>, h: nat, l: nat, w: nat, v: nat)
    requires NextUnit(s) == Some(Unit(h, w)) && High(h) && NextUnit(s[w..]) == Some(Unit(l, v)) && Low(l)
    ensures w + v <= |s| && ReadString(s) == Prepend(Pair(h, l), ReadString(s[w..][v..]))
  {
    assert s[w + v..] == s[w..][v..];
  }

  lemma ReadsBeyond(s: seq<CodePoint>)
    requires s != [] && s[0] >= 0x1_0000
    ensures ReadString(Escape(s)) == Prepend(s[0], ReadString(Escape(s[1..])))
  {
    var e, rest := Escaped(s[0]), Escape(s[1..]);
    Peel(s);
    BeyondIsPair(s[0], rest);
    PairOfParts(s[0]);
    ReadPair(e + rest, HighOf(s[0]), LowOf(s[0]), 6, 6);
    assert (e + rest)[6..][6..] == (e + rest)[12..];
  }

  lemma ReadsSplit(s: seq<CodePoint>)
    requires SplitAt(s, 0)
    ensures ReadString(Escape(s)) == Prepend(Pair(s[0], s[1]), ReadString(Escape(s[2..])))
  {
    Peel(s);
    Peel(s[1..]);
    assert s[1..][1..] == s[2..];
    PlainIsUnit(s[0], Escape(s[1..]));
    PlainIsUnit(s[1], Escape(s[2..]));
    ReadPair(Escape(s), s[0], s[1], |Escaped(s[0])|, |Escaped(s[1])|);
  }

  lemma ReadsPlain(s: seq<CodePoint>)
    requires s != [] && s[0] < 0x1_0000 && !SplitAt(s, 0)
    ensures ReadString(Escape(s)) == Prepend(s[0], ReadString(Escape(s[1..])))
  {
    Peel(s);
    PlainIsUnit(s[0], Escape(s[1..]));
    StartsWithUnit(s[1..]);
    ReadOne(Escape(s), s[0], |Escaped(s[0])|);
  }

  /** A string is read back as it was, but for such halves. */
  lemma {:induction false} ReadsJoined(s: seq<CodePoint>)
    ensures ReadString(Escape(s)) == Some(Joined(s))
    decreases |s|
  {
    if s == [] {
    } else if SplitAt(s, 0) {
      ReadsSplit(s);
      ReadsJoined(s[2..]);
    } else {
      if s[0] < 0x1_0000 {
        ReadsPlain(s);
      } else {
        ReadsBeyond(s);
      }
      ReadsJoined(s[1..]);
    }
  }

  lemma {:induction false} JoinedShrinks(s: seq<CodePoint>, i: nat)
    requires SplitAt(s, i)
    ensures |Joined(s)| < |s|
  {
    if i > 0 && !SplitAt(s, 0) {
      JoinedShrinks(s[1..], i - 1);
    }
  }

  lemma {:induction false} JoinedIsSame(s: seq<CodePoint>)
    requires forall i: nat :: !SplitAt(s, i)
    ensures Joined(s) == s
  {
    if s != [] {
      assert forall i: nat :: SplitAt(s[1..], i) ==> SplitAt(s, i + 1);
      JoinedIsSame(s[1..]);
      assert s == [s[0]] + s[1..];
    }
  }

  /** The reply names the device: its name is read back from the escapes, if and only if
      it has no split pair. */
  lemma NameReadsBackIff(name: seq<CodePoint>)
    ensures ReadString(Escape(name)) == Some(name) <==> forall i: nat :: !SplitAt(name, i)
  {
    ReadsJoined(name);
    if i: nat :| SplitAt(name, i) {
      JoinedShrinks(name, i);
    } else {
      JoinedIsSame(name);
    }
  }
}

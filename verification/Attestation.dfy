/** The attestation exchange on the shared topic: the query the device builds
    (src/telemetry.cc), the one-slot mailbox that keeps the verifier's reply and
    drops the echoed query (src/comms.cc), and what counts as a yes. */
module Attestation {
  import opened Wrappers
  import opened Bytes

  const TOKEN_LENGTH := 32
  const DEVICE_ID_MAX := 64
  const REQUEST_MAX := 256
  const RESPONSE_MAX := 256

  const QUERY_MARKER := Ascii("\"query\"")
  const YES_TIGHT := Ascii("\"attested\":true")
  const YES_LOOSE := Ascii("\"attested\": true")

  const QUERY_HEAD := Ascii("{\"query\":\"am_i_attested\",\"device\":\"")
  const QUERY_TOKEN := Ascii("\",\"token\":\"")
  const QUERY_TAIL := Ascii("\"}")

  // ---- The query ---------------------------------------------------------

  datatype Evidence = Evidence(deviceId: seq<byte>, token: seq<byte>)

  /** Evidence as the attestation compartment fills it in. */
  predicate WellFormed(e: Evidence) {
    |e.deviceId| <= DEVICE_ID_MAX && |e.token| == TOKEN_LENGTH
  }

  function HexDigit(n: int): byte
    requires 0 <= n < 16
  {
    if n < 10 then 48 + n else 87 + n
  }

  /** Two lower-case hexadecimal digits per byte. */
  function Hex(data: seq<byte>): (r: seq<byte>)
    ensures |r| == 2 * |data|
  {
    seq(2 * |data|, i requires 0 <= i < 2 * |data| =>
      HexDigit(if i % 2 == 0 then data[i / 2] / 16 else data[i / 2] % 16))
  }

  function Query(e: Evidence): seq<byte> {
    QUERY_HEAD + e.deviceId + QUERY_TOKEN + Hex(e.token) + QUERY_TAIL
  }

  /** Different evidence makes different hexadecimal text. */
  lemma HexInjective(a: seq<byte>, b: seq<byte>)
    requires Hex(a) == Hex(b)
    ensures a == b
  {
    forall i | 0 <= i < |a| ensures a[i] == b[i] {
      assert Hex(a)[2 * i] == Hex(b)[2 * i] && Hex(a)[2 * i + 1] == Hex(b)[2 * i + 1];
    }
  }

  /** A request buffer filled from the left: append_literal and append_hex. */
  class RequestBuffer {
    const buf: array<byte>
    var pos: nat

    ghost predicate Valid()
      reads this
    {
      pos <= buf.Length
    }

    ghost function Contents(): seq<byte>
      requires Valid()
      reads this, buf
    {
      buf[..pos]
    }

    constructor (cap: nat)
      ensures Valid() && Contents() == [] && buf.Length == cap && fresh(buf)
    {
      buf := new byte[cap](_ => 0);
      pos := 0;
    }

    method AppendLiteral(s: seq<byte>) returns (ok: bool)
      requires Valid()
      modifies this`pos, buf
      ensures Valid() && ok == (old(pos) + |s| <= buf.Length)
      ensures Contents() == if ok then old(Contents()) + s else old(Contents())
    {
      ok := pos + |s| <= buf.Length;
      if ok {
        forall i | 0 <= i < |s| {
          buf[pos + i] := s[i];
        }
        pos := pos + |s|;
        assert buf[..pos] == old(buf[..pos]) + s;
      }
    }

    method AppendHex(data: seq<byte>) returns (ok: bool)
      requires Valid()
      modifies this`pos, buf
      ensures Valid() && ok == (old(pos) + 2 * |data| <= buf.Length)
      ensures Contents() == if ok then old(Contents()) + Hex(data) else old(Contents())
    {
      ok := pos + 2 * |data| <= buf.Length;
      if ok {
        ghost var start := pos;
        var i := 0;
        while i < |data|
          invariant 0 <= i <= |data| && pos == start + 2 * i <= buf.Length
          invariant forall k :: 0 <= k < start ==> buf[k] == old(buf[k])
          invariant forall k :: 0 <= k < 2 * i ==> buf[start + k] == Hex(data)[k]
        {
          buf[pos] := HexDigit(data[i] / 16);
          buf[pos + 1] := HexDigit(data[i] % 16);
          pos, i := pos + 2, i + 1;
        }
        assert buf[..pos] == old(buf[..pos]) + Hex(data);
      }
    }

    /** build_attestation_query: the length written, or 0 on overflow. */
    method BuildQuery(e: Evidence) returns (n: nat)
      requires Valid() && pos == 0
      modifies this`pos, buf
      ensures Valid()
      ensures n == if |Query(e)| <= buf.Length then |Query(e)| else 0
      ensures |Query(e)| <= buf.Length ==> buf[..n] == Query(e)
    {
      var ok := AppendLiteral(QUERY_HEAD);
      assert [] + QUERY_HEAD == QUERY_HEAD;
      if ok {
        ok := AppendLiteral(e.deviceId);
      }
      if ok {
        ok := AppendLiteral(QUERY_TOKEN);
      }
      if ok {
        ok := AppendHex(e.token);
      }
      if ok {
        ok := AppendLiteral(QUERY_TAIL);
      }
      n := if ok then pos else 0;
    }
  }

  lemma MarkerSpelled()
    ensures QUERY_MARKER == [34, 113, 117, 101, 114, 121, 34]
  {
  }

  lemma MarkerInHead()
    ensures |QUERY_HEAD| == 35
    ensures QUERY_HEAD[1] == 34 && QUERY_HEAD[2] == 113 && QUERY_HEAD[3] == 117 && QUERY_HEAD[4] == 101
    ensures QUERY_HEAD[5] == 114 && QUERY_HEAD[6] == 121 && QUERY_HEAD[7] == 34
  {
  }

  /** Every query carries the marker. */
  lemma QueryIsMarked(e: Evidence)
    ensures Contains(Query(e), QUERY_MARKER)
  {
    MarkerSpelled();
    MarkerInHead();
    assert Query(e)[1..8] == QUERY_MARKER;
    assert OccursAt(Query(e), QUERY_MARKER, 1);
  }

  /** With an identifier that fits its field the query never overflows, and the
      mailbox always recognises it as the device's own. */
  lemma QueryFitsAndIsFiltered(e: Evidence)
    requires WellFormed(e)
    ensures |Query(e)| <= 176 < REQUEST_MAX
    ensures Contains(Query(e), QUERY_MARKER)
  {
    QueryIsMarked(e);
  }

  // ---- The mailbox -------------------------------------------------------

  /** The one slot: what is waiting in it. */
  type Slot = Option<seq<byte>>

  /** A message the mailbox is willing to keep. */
  predicate Acceptable(payload: seq<byte>) {
    !Contains(payload, QUERY_MARKER) && |payload| <= RESPONSE_MAX
  }

  /** The attestation branch of publish_callback. */
  function Post(slot: Slot, payload: seq<byte>): Slot {
    if slot.None? && Acceptable(payload) then Some(payload) else slot
  }

  class Mailbox {
    const raBuf: array<byte>
    var raLen: nat
    var raPending: bool

    ghost predicate Valid()
      reads this
    {
      raBuf.Length == RESPONSE_MAX && raLen <= raBuf.Length
    }

    ghost function Waiting(): Slot
      requires Valid()
      reads this, raBuf
    {
      if raPending then Some(raBuf[..raLen]) else None
    }

    constructor ()
      ensures Valid() && Waiting() == None && fresh(raBuf)
    {
      raBuf := new byte[RESPONSE_MAX](_ => 0);
      raLen, raPending := 0, false;
    }

    method OnAttestation(payload: seq<byte>)
      requires Valid()
      modifies this, raBuf
      ensures Valid() && Waiting() == Post(old(Waiting()), payload)
    {
      if Contains(payload, QUERY_MARKER) {
        return;
      }
      if raPending {
        return;
      }
      if |payload| > raBuf.Length {
        return;
      }
      forall i | 0 <= i < |payload| {
        raBuf[i] := payload[i];
      }
      raLen := |payload|;
      raPending := true;
      assert raBuf[..raLen] == payload;
    }

    /** comms_take_ra_message into a buffer of at least 256 bytes. */
    method Take(out: array<byte>) returns (len: Option<nat>)
      requires Valid() && out.Length >= RESPONSE_MAX && out != raBuf
      modifies this`raPending, out
      ensures Valid() && Waiting() == None
      ensures len.None? <==> old(Waiting()).None?
      ensures len.Some? ==> len.value <= out.Length && old(Waiting()) == Some(out[..len.value])
    {
      if !raPending {
        return None;
      }
      ghost var waiting := raBuf[..raLen];
      forall i | 0 <= i < raLen {
        out[i] := raBuf[i];
      }
      assert forall i :: 0 <= i < raLen ==> out[i] == waiting[i];
      assert out[..raLen] == waiting;
      raPending := false;
      len := Some(raLen);
    }
  }

  predicate IsYes(response: seq<byte>) {
    Contains(response, YES_TIGHT) || Contains(response, YES_LOOSE)
  }

  /** The telemetry side: the latch and its drain loop. */
  class Gate {
    const mailbox: Mailbox
    const respBuf: array<byte>
    var attested: bool

    ghost predicate Valid()
      reads this, mailbox
    {
      mailbox.Valid() && respBuf.Length == RESPONSE_MAX && respBuf != mailbox.raBuf
    }

    constructor (mailbox: Mailbox)
      requires mailbox.Valid()
      ensures Valid() && this.mailbox == mailbox && !attested && fresh(respBuf)
    {
      this.mailbox := mailbox;
      respBuf := new byte[RESPONSE_MAX](_ => 0);
      attested := false;
    }

    method Drain()
      requires Valid()
      modifies this, mailbox`raPending, respBuf
      ensures Valid() && mailbox.Waiting() == None
      ensures attested == (old(attested) || (old(mailbox.Waiting()).Some? && IsYes(old(mailbox.Waiting()).value)))
    {
      ghost var first := mailbox.Waiting();
      ghost var taken := false;
      var len := mailbox.Take(respBuf);
      while len.Some?
        invariant Valid() && mailbox.Waiting() == None
        invariant len.Some? ==> !taken && 0 <= len.value <= respBuf.Length && first == Some(respBuf[..len.value])
        invariant len.Some? ==> attested == old(attested)
        invariant len.None? ==> attested == (old(attested) || (first.Some? && IsYes(first.value)))
        decreases if taken then 0 else 1
      {
        if IsYes(respBuf[..len.value]) {
          attested := true;
        }
        taken := true;
        len := mailbox.Take(respBuf);
      }
    }
  }

  // ---- The verifier's reply ----------------------------------------------

  /** A character of a JSON string as the charter holds it. */
  type CodePoint = c: int | 0 <= c < 0x11_0000

  const QUOTE: byte := 34
  const BACKSLASH: byte := 92

  /** A backslash, a u and four hexadecimal digits. */
  function UnicodeEscape(n: nat): (r: seq<byte>)
    requires n < 0x1_0000
    ensures |r| == 6
  {
    [BACKSLASH, 117, HexDigit(n / 4096), HexDigit(n / 256 % 16), HexDigit(n / 16 % 16), HexDigit(n % 16)]
  }

  /** json.dumps writes ASCII only: short escapes where there are any, surrogate pairs
      beyond 16 bits. */
  function Escaped(c: CodePoint): (r: seq<byte>)
    ensures r != []
  {
    if c == 34 || c == 92 then [BACKSLASH, c]
    else if c == 8 then [BACKSLASH, 98]
    else if c == 9 then [BACKSLASH, 116]
    else if c == 10 then [BACKSLASH, 110]
    else if c == 12 then [BACKSLASH, 102]
    else if c == 13 then [BACKSLASH, 114]
    else if 32 <= c < 127 then [c]
    else if c < 0x1_0000 then UnicodeEscape(c)
    else UnicodeEscape(0xD800 + (c - 0x1_0000) / 0x400) + UnicodeEscape(0xDC00 + (c - 0x1_0000) % 0x400)
  }

  function Escape(s: seq<CodePoint>): seq<byte> {
    if s == [] then [] else Escape(s[..|s| - 1]) + Escaped(s[|s| - 1])
  }

  const MEMBER_ATTESTED := Ascii("{\"attested\":")

  function VerdictText(verdict: bool, spaced: bool): seq<byte> {
    (if spaced then Ascii(" ") else []) + if verdict then Ascii("true") else Ascii("false")
  }

  function MemberDevice(spaced: bool): seq<byte> {
    if spaced then Ascii(", \"device\": \"") else Ascii(",\"device\":\"")
  }

  /** A verdict on the device of that name as json.dumps writes it, with its own
      separators or the compact ones. */
  function VerdictReply(verdict: bool, spaced: bool, deviceId: seq<CodePoint>): seq<byte> {
    MEMBER_ATTESTED + VerdictText(verdict, spaced) + MemberDevice(spaced) + Escape(deviceId) + REPLY_TAIL
  }

  /** {"attested": true, "device": " */
  const REPLY_HEAD := MEMBER_ATTESTED + VerdictText(true, true) + MemberDevice(true)
  const REPLY_TAIL := Ascii("\"}")

  /** charter/attestation.py's build_response to a device of that name: always a yes. */
  function Reply(deviceId: seq<CodePoint>): seq<byte> {
    VerdictReply(true, true, deviceId)
  }

  lemma ReplyFrame()
    ensures |REPLY_HEAD| == 30 && REPLY_HEAD[29] == QUOTE && REPLY_TAIL == [QUOTE, 125]
    ensures forall i :: 0 <= i < 30 ==> REPLY_HEAD[i] != 113
    ensures QUERY_MARKER == [QUOTE, 113, 117, 101, 114, 121, QUOTE]
  {
  }

  /** What the last byte of an escape says about the character. */
  lemma LastByte(c: CodePoint)
    ensures var e := Escaped(c); var last := e[|e| - 1];
      (last == 113 || last == 117 || last == 121 ==> e == [last] && c == last) &&
      (last == 114 ==> c == 114 || e == [BACKSLASH, 114]) &&
      (last == 101 ==> c == 101 || (|e| >= 2 && e[|e| - 2] != 117)) &&
      (last == QUOTE ==> c == 34)
  {
  }

  /** A quote inside an escaped name has a backslash in front of it. */
  lemma QuoteInEscape(c: CodePoint, k: nat)
    requires k < |Escaped(c)| && Escaped(c)[k] == QUOTE
    ensures k > 0 && Escaped(c)[k - 1] == BACKSLASH
  {
  }

  lemma {:induction false} QuotesAreEscaped(s: seq<CodePoint>, k: nat)
    requires k < |Escape(s)| && Escape(s)[k] == QUOTE
    ensures k > 0 && Escape(s)[k - 1] == BACKSLASH
  {
    var n := |s| - 1;
    var front := Escape(s[..n]);
    if k < |front| {
      QuotesAreEscaped(s[..n], k);
    } else {
      QuoteInEscape(s[n], k - |front|);
    }
  }

  lemma {:induction false} EscapeNext(front: seq<CodePoint>, c: CodePoint)
    ensures Escape(front + [c]) == Escape(front) + Escaped(c)
  {
    assert (front + [c])[..|front|] == front;
  }

  /** The character behind the last byte, if that byte is its own escape. */
  lemma EndsPlain(s: seq<CodePoint>, e: seq<byte>, b: byte) returns (front: seq<CodePoint>)
    requires Escape(s) == e + [b]
    requires b == 113 || b == 117 || b == 121 || (b == 114 && e != [] && e[|e| - 1] == 101) ||
      (b == 101 && e != [] && e[|e| - 1] == 117)
    ensures s == front + [b] && Escape(front) == e
  {
    front := s[..|s| - 1];
    var c := s[|s| - 1];
    LastPiece(e, b, Escape(front), Escaped(c));
    LastByte(c);
    assert |Escaped(c)| == 1;
    assert s == front + [c];
  }

  lemma LastPiece(e: seq<byte>, b: byte, front: seq<byte>, last: seq<byte>)
    requires e + [b] == front + last && last != []
    ensures last[|last| - 1] == b
    ensures |last| == 1 ==> front == e && last == [b]
    ensures |last| >= 2 ==> e != [] && last[|last| - 2] == e[|e| - 1]
  {
    var all := e + [b];
    assert all[|e|] == b && all == front + last;
    assert |last| == 1 ==> front == all[..|e|] && e == all[..|e|];
    assert |last| >= 2 ==> all[|all| - 2] == last[|last| - 2];
  }

  /** The word, as characters and as bytes. */
  const QUERY_NAME: seq<byte> := [113, 117, 101, 114, 121]

  lemma FiveMore(e: seq<byte>)
    ensures e + [113] + [117] + [101] + [114] + [121] == e + QUERY_NAME
  {
  }

  lemma FiveMoreNamed(s: seq<CodePoint>)
    ensures s + [113] + [117] + [101] + [114] + [121] == s + QUERY_NAME
  {
  }

  lemma WordPeels(s: seq<CodePoint>, e: seq<byte>) returns (front: seq<CodePoint>)
    requires Escape(s) == e + QUERY_NAME
    ensures s == front + QUERY_NAME && Escape(front) == e
  {
    FiveMore(e);
    var s4 := EndsPlain(s, e + [113] + [117] + [101] + [114], 121);
    var s3 := EndsPlain(s4, e + [113] + [117] + [101], 114);
    var s2 := EndsPlain(s3, e + [113] + [117], 101);
    var s1 := EndsPlain(s2, e + [113], 117);
    front := EndsPlain(s1, e, 113);
    FiveMoreNamed(front);
  }

  lemma {:induction false} PlainNext(front: seq<CodePoint>, c: CodePoint)
    requires 97 <= c < 123
    ensures Escape(front + [c]) == Escape(front) + [c]
  {
    EscapeNext(front, c);
  }

  lemma WordAppends(front: seq<CodePoint>)
    ensures Escape(front + QUERY_NAME) == Escape(front) + QUERY_NAME
  {
    var s1, e1 := front + [113], Escape(front) + [113];
    PlainNext(front, 113);
    var s2, e2 := s1 + [117], e1 + [117];
    PlainNext(s1, 117);
    var s3, e3 := s2 + [101], e2 + [101];
    PlainNext(s2, 101);
    var s4, e4 := s3 + [114], e3 + [114];
    PlainNext(s3, 114);
    PlainNext(s4, 121);
    FiveMore(Escape(front));
    FiveMoreNamed(front);
  }

  /** `s` is `front`, which is empty or ends with a quote, and the word. */
  predicate WordBehind(s: seq<CodePoint>, front: seq<CodePoint>) {
    s == front + QUERY_NAME && (front == [] || front[|front| - 1] == 34)
  }

  /** The name is the word, or ends with it right after a quote of its own. */
  ghost predicate LooksLikeQuery(s: seq<CodePoint>) {
    exists front :: WordBehind(s, front)
  }

  lemma EndsInQuote(s: seq<CodePoint>)
    requires s != []
    ensures Escape(s) != [] && (Escape(s)[|Escape(s)| - 1] == QUOTE <==> s[|s| - 1] == 34)
  {
    LastByte(s[|s| - 1]);
  }

  /** The marker, byte by byte. */
  predicate MarkerBytes(r: seq<byte>, i: nat) {
    i + 7 <= |r| && r[i] == QUOTE && r[i + 1] == 113 && r[i + 2] == 117 && r[i + 3] == 101 &&
    r[i + 4] == 114 && r[i + 5] == 121 && r[i + 6] == QUOTE
  }

  lemma MarkerIsBytes(r: seq<byte>, i: nat)
    ensures OccursAt(r, QUERY_MARKER, i) <==> MarkerBytes(r, i)
  {
    ReplyFrame();
    if OccursAt(r, QUERY_MARKER, i) {
      var t := r[i..i + 7];
      assert t[0] == r[i] && t[1] == r[i + 1] && t[2] == r[i + 2] && t[3] == r[i + 3] &&
        t[4] == r[i + 4] && t[5] == r[i + 5] && t[6] == r[i + 6];
    }
  }

  /** `r` is a reply around the escaped name `e`, seen byte by byte. */
  predicate Frames(r: seq<byte>, e: seq<byte>) {
    |r| == 32 + |e| && (forall k :: 0 <= k < 30 ==> r[k] != 113) && r[29] == QUOTE &&
    (forall k :: 30 <= k < 30 + |e| ==> r[k] == e[k - 30]) && r[30 + |e|] == QUOTE && r[31 + |e|] == 125
  }

  lemma ReplyFrames(deviceId: seq<CodePoint>)
    ensures Frames(Reply(deviceId), Escape(deviceId))
  {
    ReplyFrame();
  }

  /** The marker starts at the opening quote or behind it; and unless its last quote is
      the closing one, there is a quote in the name right behind a y. */
  lemma MarkerPlace(r: seq<byte>, e: seq<byte>, i: nat)
    requires Frames(r, e) && MarkerBytes(r, i)
    ensures i >= 29 && i + 6 <= 30 + |e|
    ensures i + 6 < 30 + |e| ==> 0 < i - 24 < |e| && e[i - 24] == QUOTE && e[i - 25] == 121
  {
    assert i + 1 >= 30;
  }

  lemma MarkerCloses(deviceId: seq<CodePoint>, r: seq<byte>, i: nat)
    requires Frames(r, Escape(deviceId)) && MarkerBytes(r, i)
    ensures i + 6 == 30 + |Escape(deviceId)|
  {
    var e := Escape(deviceId);
    MarkerPlace(r, e, i);
    if i + 6 < 30 + |e| {
      QuotesAreEscaped(deviceId, i - 24);
    }
  }

  /** So the name ends with the word, right behind a quote or at its start. */
  lemma MarkerTail(r: seq<byte>, e: seq<byte>, i: nat) returns (front: seq<byte>)
    requires Frames(r, e) && MarkerBytes(r, i) && i + 6 == 30 + |e|
    ensures e == front + QUERY_NAME && (front == [] || front[|front| - 1] == QUOTE)
  {
    MarkerPlace(r, e, i);
    var n := |e| - 5;
    front := e[..n];
    assert e[n] == r[i + 1] && e[n + 1] == r[i + 2] && e[n + 2] == r[i + 3];
    assert e[n + 3] == r[i + 4] && e[n + 4] == r[i + 5];
    assert n > 0 ==> e[n - 1] == r[i];
  }

  lemma MarkerMeans(deviceId: seq<CodePoint>, r: seq<byte>, i: nat)
    requires Frames(r, Escape(deviceId)) && MarkerBytes(r, i)
    ensures LooksLikeQuery(deviceId)
  {
    MarkerCloses(deviceId, r, i);
    var e := MarkerTail(r, Escape(deviceId), i);
    var front := WordPeels(deviceId, e);
    if front != [] {
      EndsInQuote(front);
    }
    assert WordBehind(deviceId, front);
  }

  lemma MarkedTail(r: seq<byte>, e: seq<byte>, front: seq<byte>)
    requires Frames(r, e) && e == front + QUERY_NAME && (front == [] || front[|front| - 1] == QUOTE)
    ensures MarkerBytes(r, 29 + |front|)
  {
    var n := |front|;
    assert e[n] == 113 && e[n + 1] == 117 && e[n + 2] == 101 && e[n + 3] == 114 && e[n + 4] == 121;
    assert n > 0 ==> e[n - 1] == QUOTE;
  }

  lemma QueryLikeIsMarked(deviceId: seq<CodePoint>)
    requires LooksLikeQuery(deviceId)
    ensures Contains(Reply(deviceId), QUERY_MARKER)
  {
    var front :| WordBehind(deviceId, front);
    ReplyFrames(deviceId);
    WordAppends(front);
    if front != [] {
      EndsInQuote(front);
    }
    MarkedTail(Reply(deviceId), Escape(deviceId), Escape(front));
    MarkerIsBytes(Reply(deviceId), 29 + |Escape(front)|);
  }

  /** The handshake completes for every device name but these: the mailbox keeps the
      verifier's yes if and only if it fits and the name neither is "query" nor ends
      with that word right after a quote. */
  lemma ReplyAcceptedIff(deviceId: seq<CodePoint>)
    ensures Acceptable(Reply(deviceId)) <==> |Escape(deviceId)| <= 224 && !LooksLikeQuery(deviceId)
  {
    var r := Reply(deviceId);
    ReplyFrame();
    assert |r| == 32 + |Escape(deviceId)|;
    if i :| 0 <= i <= |r| - |QUERY_MARKER| && OccursAt(r, QUERY_MARKER, i) {
      MarkerIsBytes(r, i);
      ReplyFrames(deviceId);
      MarkerMeans(deviceId, r, i);
    }
    if LooksLikeQuery(deviceId) {
      QueryLikeIsMarked(deviceId);
    }
  }

  predicate Plain(s: seq<CodePoint>) {
    forall i :: 0 <= i < |s| ==> 32 <= s[i] < 127 && s[i] != 34 && s[i] != 92
  }

  lemma {:induction false} PlainEscape(s: seq<CodePoint>)
    requires Plain(s)
    ensures |Escape(s)| == |s|
  {
    if s != [] {
      PlainEscape(s[..|s| - 1]);
    }
  }

  lemma PlainLooksLikeQueryIff(s: seq<CodePoint>)
    requires Plain(s)
    ensures LooksLikeQuery(s) <==> s == QUERY_NAME
  {
    assert s == QUERY_NAME ==> WordBehind(s, []);
    assert forall front :: WordBehind(s, front) && front != [] ==> s[|front| - 1] == front[|front| - 1];
  }

  /** For a name of printable ASCII characters without quote and backslash: the reply is
      kept iff the name has at most 224 characters and is not "query". */
  lemma PlainReplyAcceptedIff(deviceId: seq<CodePoint>)
    requires Plain(deviceId)
    ensures Acceptable(Reply(deviceId)) <==> |deviceId| <= 224 && deviceId != QUERY_NAME
  {
    PlainEscape(deviceId);
    ReplyAcceptedIff(deviceId);
    PlainLooksLikeQueryIff(deviceId);
  }
}

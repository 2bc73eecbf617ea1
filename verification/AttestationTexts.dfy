/** The texts of the attestation exchange, read independently of how they are written:
    a query gives back its evidence, and a reply is a yes for a true verdict only. */
module AttestationTexts {
  import opened Wrappers
  import opened Bytes
  import opened Attestation

  // ---- A reader of queries -----------------------------------------------

  /** The value of a lower-case hexadecimal digit. */
  function Nibble(c: byte): Option<nat> {
    if 48 <= c <= 57 then Some(c - 48)
    else if 97 <= c <= 102 then Some(c - 87)
    else None
  }

  /** Pairs of digits, the high one first. */
  function UnHex(s: seq<byte>): Option<seq<byte>> {
    if s == [] then Some([])
    else if |s| == 1 || Nibble(s[0]).None? || Nibble(s[1]).None? then None
    else
      match UnHex(s[2..])
      case None => None
      case Some(rest) => Some([16 * Nibble(s[0]).value + Nibble(s[1]).value] + rest)
  }

  /** Where the next quote is; the end if there is none. */
  function NextQuote(s: seq<byte>, pos: nat): (q: nat)
    requires pos <= |s|
    ensures pos <= q <= |s| && (q < |s| ==> s[q] == 34)
    ensures forall k :: pos <= k < q ==> s[k] != 34
    decreases |s| - pos
  {
    if pos < |s| && s[pos] != 34 then NextQuote(s, pos + 1) else pos
  }

  /** The two fields of a query: the name up to the next quote, and what is between the
      token's quotes. */
  function ReadQuery(s: seq<byte>): Option<Evidence> {
    var head := Ascii("{\"query\":\"am_i_attested\",\"device\":\"");
    var mid := Ascii("\",\"token\":\"");
    if !OccursAt(s, head, 0) then None
    else
      var close := NextQuote(s, |head|);
      var start := close + |mid|;
      if !OccursAt(s, mid, close) || |s| < start + 2 || s[|s| - 2..] != Ascii("\"}") then None
      else
        match UnHex(s[start..|s| - 2])
        case None => None
        case Some(token) => Some(Evidence(s[|head|..close], token))
  }

  lemma HexPair(b: byte)
    ensures Nibble(HexDigit(b / 16)) == Some(b / 16) && Nibble(HexDigit(b % 16)) == Some(b % 16)
    ensures 16 * (b / 16) + b % 16 == b
  {
  }

  lemma HexTail(data: seq<byte>)
    requires data != []
    ensures Hex(data)[2..] == Hex(data[1..])
    ensures Hex(data)[0] == HexDigit(data[0] / 16) && Hex(data)[1] == HexDigit(data[0] % 16)
  {
    forall i | 0 <= i < 2 * |data[1..]| ensures Hex(data)[2 + i] == Hex(data[1..])[i] {
      assert (2 + i) / 2 == 1 + i / 2 && (2 + i) % 2 == i % 2;
    }
  }

  /** Reading the digits back gives the bytes. */
  lemma {:induction false} UnHexInverts(data: seq<byte>)
    ensures UnHex(Hex(data)) == Some(data)
  {
    if data != [] {
      HexTail(data);
      HexPair(data[0]);
      UnHexInverts(data[1..]);
      assert data == [data[0]] + data[1..];
    }
  }

  /** A query, piece by piece. */
  lemma QueryParts(e: Evidence)
    ensures var s, h := Query(e), |QUERY_HEAD|; var close := h + |e.deviceId|; var start := close + |QUERY_TOKEN|;
      |s| == start + |Hex(e.token)| + 2 && s[..h] == QUERY_HEAD && s[h..close] == e.deviceId &&
      s[close..start] == QUERY_TOKEN && s[start..|s| - 2] == Hex(e.token) && s[|s| - 2..] == QUERY_TAIL
  {
    var s, h := Query(e), |QUERY_HEAD|;
    var close := h + |e.deviceId|;
    var start := close + |QUERY_TOKEN|;
    assert |QUERY_TAIL| == 2;
    assert s == QUERY_HEAD + (e.deviceId + (QUERY_TOKEN + (Hex(e.token) + QUERY_TAIL)));
  }

  lemma FirstQuote(s: seq<byte>, pos: nat, name: seq<byte>)
    requires pos + |name| < |s| && s[pos..pos + |name|] == name && s[pos + |name|] == 34
    ensures NextQuote(s, pos) == pos + |name| <==> 34 !in name
  {
    assert forall k :: pos <= k < pos + |name| ==> s[k] == name[k - pos];
  }

  /** The verifier can tell the nodes and their tokens apart: the query is read back as
      exactly the evidence it was built from, if and only if the name has no quote. */
  lemma QueryReadsBackIff(e: Evidence)
    ensures ReadQuery(Query(e)) == Some(e) <==> QUOTE !in e.deviceId
  {
    var s := Query(e);
    var close := |QUERY_HEAD| + |e.deviceId|;
    QueryParts(e);
    assert s[close] == s[close..close + |QUERY_TOKEN|][0] == QUERY_TOKEN[0] == 34;
    FirstQuote(s, |QUERY_HEAD|, e.deviceId);
    UnHexInverts(e.token);
  }

  /** And whatever the names: different well-formed evidence makes different queries. */
  lemma QueryInjective(e: Evidence, f: Evidence)
    requires WellFormed(e) && WellFormed(f) && Query(e) == Query(f)
    ensures e == f
  {
    QueryParts(e);
    QueryParts(f);
    HexInjective(e.token, f.token);
  }

  // ---- The verdict -------------------------------------------------------

  /** The end of a member name that ends with a d: its last letter, quote and colon. */
  predicate KeyEnds(r: seq<byte>, j: int) {
    0 < j < |r| - 1 && r[j - 1] == 100 && r[j] == QUOTE && r[j + 1] == 58
  }

  lemma MemberSpelled()
    ensures MEMBER_ATTESTED == [123, 34, 97, 116, 116, 101, 115, 116, 101, 100, 34, 58]
  {
  }

  lemma YesSpelled()
    ensures YES_TIGHT == [34, 97, 116, 116, 101, 115, 116, 101, 100, 34, 58, 116, 114, 117, 101]
    ensures YES_LOOSE == [34, 97, 116, 116, 101, 115, 116, 101, 100, 34, 58, 32, 116, 114, 117, 101]
  {
  }

  lemma TextSpelled()
    ensures VerdictText(true, true) == [32, 116, 114, 117, 101]
    ensures VerdictText(false, true) == [32, 102, 97, 108, 115, 101]
    ensures VerdictText(true, false) == [116, 114, 117, 101]
    ensures VerdictText(false, false) == [102, 97, 108, 115, 101]
  {
  }

  /** The second member has two quotes before the name's own, none right behind a d. */
  predicate NoKeyOfItsOwn(m: seq<byte>) {
    m != [] && m[0] == 44 && forall j :: 0 < j < |m| && m[j] == QUOTE ==> m[j - 1] != 100
  }

  lemma DeviceSpelled(spaced: bool)
    ensures NoKeyOfItsOwn(MemberDevice(spaced))
  {
  }

  lemma ByteOf(r: seq<byte>, t: seq<byte>, i: nat, k: nat)
    requires OccursAt(r, t, i) && k < |t|
    ensures i + k < |r| && r[i + k] == t[k]
  {
    assert r[i..i + |t|][k] == r[i + k];
  }

  /** Where a yes is found, such a name ends, and the first letter of true follows its
      colon, or a space and that letter. */
  lemma YesHasKey(r: seq<byte>, i: nat)
    requires OccursAt(r, YES_TIGHT, i) || OccursAt(r, YES_LOOSE, i)
    ensures KeyEnds(r, i + 9) && i + 12 < |r|
    ensures r[i + 11] == 116 || (r[i + 11] == 32 && r[i + 12] == 116)
  {
    YesSpelled();
    var t := if OccursAt(r, YES_TIGHT, i) then YES_TIGHT else YES_LOOSE;
    ByteOf(r, t, i, 8);
    ByteOf(r, t, i, 9);
    ByteOf(r, t, i, 10);
    ByteOf(r, t, i, 11);
    ByteOf(r, t, i, 12);
  }

  /** The first member, a text without quotes, the second member, the escaped name. */
  function Assembled(v: seq<byte>, m: seq<byte>, e: seq<byte>): seq<byte> {
    MEMBER_ATTESTED + v + m + e + REPLY_TAIL
  }

  /** Every quote in `e` has a backslash in front. */
  predicate QuotesGuarded(e: seq<byte>) {
    forall k :: 0 <= k < |e| && e[k] == QUOTE ==> k > 0 && e[k - 1] == BACKSLASH
  }

  /** No other name ends so: the verdict has no quotes, the device's name only guarded
      ones, and the closing quote has a brace behind it. */
  lemma OneKey(v: seq<byte>, m: seq<byte>, e: seq<byte>, j: int)
    requires QUOTE !in v && NoKeyOfItsOwn(m) && QuotesGuarded(e) && KeyEnds(Assembled(v, m, e), j)
    ensures j == 10
  {
    MemberSpelled();
    var r, front := Assembled(v, m, e), 12 + |v|;
    assert REPLY_TAIL == [QUOTE, 125];
    assert forall k :: 12 <= k < front ==> r[k] == v[k - 12];
    assert forall k :: front <= k < front + |m| ==> r[k] == m[k - front];
    assert forall k :: front + |m| <= k < |r| - 2 ==> r[k] == e[k - front - |m|];
  }

  lemma FalseIsNoYes(v: seq<byte>, m: seq<byte>, e: seq<byte>)
    requires QUOTE !in v && NoKeyOfItsOwn(m) && QuotesGuarded(e) && |v| >= 2
    requires v[0] == 102 || (v[0] == 32 && v[1] == 102)
    ensures !IsYes(Assembled(v, m, e))
  {
    var r := Assembled(v, m, e);
    MemberSpelled();
    assert r[12] == v[0] && r[13] == v[1];
    if i: nat :| OccursAt(r, YES_TIGHT, i) || OccursAt(r, YES_LOOSE, i) {
      YesHasKey(r, i);
      OneKey(v, m, e, i + 9);
    }
  }

  lemma YesJoins()
    ensures MEMBER_ATTESTED + VerdictText(true, true) == [123] + YES_LOOSE
    ensures MEMBER_ATTESTED + VerdictText(true, false) == [123] + YES_TIGHT
  {
    MemberSpelled();
    TextSpelled();
    YesSpelled();
  }

  lemma OccursBehindOne(b: byte, t: seq<byte>, rest: seq<byte>)
    ensures OccursAt([b] + t + rest, t, 1)
  {
    assert ([b] + t + rest)[1..1 + |t|] == t;
  }

  lemma TrueIsYes(spaced: bool, m: seq<byte>, e: seq<byte>)
    ensures IsYes(Assembled(VerdictText(true, spaced), m, e))
  {
    var v, yes := VerdictText(true, spaced), if spaced then YES_LOOSE else YES_TIGHT;
    YesJoins();
    OccursBehindOne(123, yes, m + e + REPLY_TAIL);
    assert Assembled(v, m, e) == [123] + yes + (m + e + REPLY_TAIL);
  }

  /** The verdict is what counts: a reply is taken for a yes if and only if it says true,
      in either spacing and whatever is in the device's name. */
  lemma YesIffTrue(verdict: bool, spaced: bool, name: seq<CodePoint>)
    ensures IsYes(VerdictReply(verdict, spaced, name)) <==> verdict
  {
    var e := Escape(name);
    if verdict {
      TrueIsYes(spaced, MemberDevice(spaced), e);
    } else {
      TextSpelled();
      DeviceSpelled(spaced);
      forall k | 0 <= k < |e| && e[k] == QUOTE ensures k > 0 && e[k - 1] == BACKSLASH {
        QuotesAreEscaped(name, k);
      }
      FalseIsNoYes(VerdictText(false, spaced), MemberDevice(spaced), e);
    }
  }
}

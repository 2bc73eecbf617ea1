/** The JSON form of a sensor reading: the bounded writer of crypto_encrypt
    (src/crypto.cc), and a reader that gets every field back. */
module TelemetryJson {
  import opened Wrappers
  import opened Bytes
  import opened Decimal
  import opened PolicyEngine

  datatype SensorReading = SensorReading(
    moistureRaw: uint16, temperatureCx10: int16, humidityRx10: uint16,
    timestamp: uint32, lastWatering: uint32, valid: bool)

  const PLAIN_MAX := 128
  const MINUS: byte := 45

  const KEY_TIMESTAMP := Ascii("{\"timestamp\":")
  const KEY_HUMIDITY := Ascii(",\"humidity\":")
  const KEY_TEMPERATURE := Ascii(",\"temperature\":")
  const KEY_MOISTURE := Ascii(",\"moisture\":")
  const KEY_LAST_WATERING := Ascii(",\"lastWatering\":")
  const END := Ascii("}")

  function SignedNumeral(v: int): seq<byte> {
    if v < 0 then [MINUS] + Numeral(-v) else Numeral(v)
  }

  function Member(key: seq<byte>, value: seq<byte>, rest: seq<byte>): seq<byte> {
    key + value + rest
  }

  function FromLastWatering(r: SensorReading): seq<byte> {
    Member(KEY_LAST_WATERING, Numeral(r.lastWatering), END)
  }

  function FromMoisture(r: SensorReading): seq<byte> {
    Member(KEY_MOISTURE, Numeral(r.moistureRaw), FromLastWatering(r))
  }

  function FromTemperature(r: SensorReading): seq<byte> {
    Member(KEY_TEMPERATURE, SignedNumeral(r.temperatureCx10), FromMoisture(r))
  }

  function FromHumidity(r: SensorReading): seq<byte> {
    Member(KEY_HUMIDITY, Numeral(r.humidityRx10), FromTemperature(r))
  }

  /** {"timestamp":U,"humidity":U,"temperature":I,"moisture":U,"lastWatering":U} */
  function Json(r: SensorReading): seq<byte> {
    Member(KEY_TIMESTAMP, Numeral(r.timestamp), FromHumidity(r))
  }

  lemma SignedWidth(v: int16)
    ensures 1 <= |SignedNumeral(v)| <= 6
  {
    var n: int := v;
    Widths(if n < 0 then -n else n);
  }

  /** Every reading fits the 128-byte buffer, with room to spare on both sides. */
  lemma JsonLength(r: SensorReading)
    ensures 74 <= |Json(r)| <= 105
  {
    Widths(r.timestamp);
    Widths(r.humidityRx10);
    SignedWidth(r.temperatureCx10);
    Widths(r.moistureRaw);
    Widths(r.lastWatering);
  }

  // ---- The writer --------------------------------------------------------

  /** crypto_encrypt's `plain` and `pos` with the lambdas that fill them. */
  class PlainBuffer {
    const plain: array<byte>
    var pos: nat

    ghost predicate Valid()
      reads this
    {
      plain.Length == PLAIN_MAX && pos <= plain.Length
    }

    ghost function Contents(): seq<byte>
      requires Valid()
      reads this, plain
    {
      plain[..pos]
    }

    constructor ()
      ensures Valid() && Contents() == [] && fresh(plain)
    {
      plain := new byte[PLAIN_MAX](_ => 0);
      pos := 0;
    }

    method WriteChar(c: byte) returns (ok: bool)
      requires Valid()
      modifies this`pos, plain
      ensures Valid() && ok == (old(pos) < PLAIN_MAX)
      ensures Contents() == if ok then old(Contents()) + [c] else old(Contents())
    {
      ok := pos < plain.Length;
      if ok {
        plain[pos] := c;
        pos := pos + 1;
      }
    }

    method WriteLiteral(s: seq<byte>) returns (ok: bool)
      requires Valid()
      modifies this`pos, plain
      ensures Valid() && ok == (old(pos) + |s| <= PLAIN_MAX)
      ensures Contents() == if ok then old(Contents()) + s else old(Contents())
    {
      ok := pos + |s| <= plain.Length;
      if ok {
        forall i | 0 <= i < |s| {
          plain[pos + i] := s[i];
        }
        pos := pos + |s|;
        assert plain[..pos] == old(plain[..pos]) + s;
      }
    }

    method WriteUnsigned(v: uint32) returns (ok: bool)
      requires Valid()
      modifies this`pos, plain
      ensures Valid() && ok == (old(pos) + |Numeral(v)| <= PLAIN_MAX)
      ensures Contents() == if ok then old(Contents()) + Numeral(v) else old(Contents())
    {
      var tmp, len := WriteUint(v);
      ok := WriteLiteral(tmp[..len]);
    }

    method WriteSigned(v: int16) returns (ok: bool)
      requires Valid()
      modifies this`pos, plain
      ensures Valid() && ok == (old(pos) + |SignedNumeral(v)| <= PLAIN_MAX)
      ensures ok ==> Contents() == old(Contents()) + SignedNumeral(v)
    {
      var n: int := v;
      if n < 0 {
        ok := WriteChar(MINUS);
        if !ok {
          return;
        }
        n := -n;
        SignedConcat(old(Contents()), n);
      }
      ok := WriteUnsigned(n);
    }

    method WriteUnsignedMember(key: seq<byte>, v: uint32) returns (ok: bool)
      requires Valid()
      modifies this`pos, plain
      ensures Valid()
      ensures old(pos) + |key| + |Numeral(v)| <= PLAIN_MAX ==> ok
      ensures ok ==> Contents() == old(Contents()) + (key + Numeral(v))
    {
      ok := WriteLiteral(key);
      if ok {
        ok := WriteUnsigned(v);
        Joined(old(Contents()), key, Numeral(v));
      }
    }

    method WriteSignedMember(key: seq<byte>, v: int16) returns (ok: bool)
      requires Valid()
      modifies this`pos, plain
      ensures Valid()
      ensures old(pos) + |key| + |SignedNumeral(v)| <= PLAIN_MAX ==> ok
      ensures ok ==> Contents() == old(Contents()) + (key + SignedNumeral(v))
    {
      ok := WriteLiteral(key);
      if ok {
        ok := WriteSigned(v);
        Joined(old(Contents()), key, SignedNumeral(v));
      }
    }

    /** The serialiser never fails, whatever the reading. */
    method Serialise(r: SensorReading) returns (ok: bool)
      requires Valid() && pos == 0
      modifies this`pos, plain
      ensures Valid() && ok && Contents() == Json(r)
    {
      HeadLengths(r);
      ok := WriteUnsignedMember(KEY_TIMESTAMP, r.timestamp);
      assert Contents() == Head1(r);
      ok := WriteUnsignedMember(KEY_HUMIDITY, r.humidityRx10);
      assert Contents() == Head2(r);
      ok := WriteSignedMember(KEY_TEMPERATURE, r.temperatureCx10);
      assert Contents() == Head3(r);
      ok := WriteUnsignedMember(KEY_MOISTURE, r.moistureRaw);
      assert Contents() == Head4(r);
      ok := WriteUnsignedMember(KEY_LAST_WATERING, r.lastWatering);
      assert Contents() == Head5(r);
      ok := WriteLiteral(END);
      Heads(r);
    }
  }

  lemma Joined(a: seq<byte>, b: seq<byte>, c: seq<byte>)
    ensures a + b + c == a + (b + c)
  {
  }

  lemma SignedConcat(before: seq<byte>, n: nat)
    requires 0 < n <= 0x8000
    ensures before + [MINUS] + Numeral(n) == before + SignedNumeral(0 - n as int)
  {
  }

  lemma HeadLengths(r: SensorReading)
    ensures |Head1(r)| <= |Head2(r)| <= |Head3(r)| <= |Head4(r)| <= |Head5(r)| < PLAIN_MAX
  {
    JsonLength(r);
    Heads(r);
  }

  /** The text up to and including the n-th member. */
  function Head1(r: SensorReading): seq<byte> { KEY_TIMESTAMP + Numeral(r.timestamp) }
  function Head2(r: SensorReading): seq<byte> { Head1(r) + (KEY_HUMIDITY + Numeral(r.humidityRx10)) }
  function Head3(r: SensorReading): seq<byte> { Head2(r) + (KEY_TEMPERATURE + SignedNumeral(r.temperatureCx10)) }
  function Head4(r: SensorReading): seq<byte> { Head3(r) + (KEY_MOISTURE + Numeral(r.moistureRaw)) }
  function Head5(r: SensorReading): seq<byte> { Head4(r) + (KEY_LAST_WATERING + Numeral(r.lastWatering)) }

  lemma Shift(a: seq<byte>, key: seq<byte>, v: seq<byte>, rest: seq<byte>)
    ensures a + Member(key, v, rest) == a + (key + v) + rest
  {
  }

  /** Each head is followed by the rest of the object. */
  lemma Heads(r: SensorReading)
    ensures Json(r) == Head1(r) + FromHumidity(r) == Head2(r) + FromTemperature(r)
    ensures Json(r) == Head3(r) + FromMoisture(r) == Head4(r) + FromLastWatering(r) == Head5(r) + END
  {
    Shift(Head1(r), KEY_HUMIDITY, Numeral(r.humidityRx10), FromTemperature(r));
    Shift(Head2(r), KEY_TEMPERATURE, SignedNumeral(r.temperatureCx10), FromMoisture(r));
    Shift(Head3(r), KEY_MOISTURE, Numeral(r.moistureRaw), FromLastWatering(r));
    Shift(Head4(r), KEY_LAST_WATERING, Numeral(r.lastWatering), END);
  }

  // ---- The reader --------------------------------------------------------

  datatype SignedField = SignedField(value: int, end: nat)

  /** A signed field: a minus sign is part of the key. */
  function ParseSignedField(buf: seq<byte>, pos: nat, key: seq<byte>): Option<SignedField>
    requires pos <= |buf|
  {
    match ParseField(buf, pos, key + [45])
    case Some(f) => Some(SignedField(0 - f.value as int, f.end))
    case None =>
      match ParseField(buf, pos, key)
      case Some(f) => Some(SignedField(f.value, f.end))
      case None => None
  }

  lemma MemberAt(s: seq<byte>, a: seq<byte>, key: seq<byte>, v: uint32, rest: seq<byte>)
    requires s == a + Member(key, Numeral(v), rest) && rest != [] && !IsDigit(rest[0])
    ensures |a| <= |s| && ParseField(s, |a|, key) == Some(Field(v, |a| + |key| + |Numeral(v)|))
  {
    ValueOfNumeral(v);
    assert a + Member(key, Numeral(v), rest) == a + key + Numeral(v) + rest;
    FieldInConcat(s, a, key, Numeral(v), rest);
    ParseFieldAt(s, |a|, key, Numeral(v));
  }

  lemma SignedMemberAt(s: seq<byte>, a: seq<byte>, key: seq<byte>, n: int, rest: seq<byte>)
    requires s == a + Member(key, SignedNumeral(n), rest) && rest != [] && !IsDigit(rest[0])
    requires -UINT32_MAX <= n <= UINT32_MAX
    ensures |a| <= |s| && ParseSignedField(s, |a|, key) == Some(SignedField(n, |a| + |key| + |SignedNumeral(n)|))
  {
    if n < 0 {
      NegativeMemberAt(s, a, key, n, rest);
    } else {
      assert SignedNumeral(n) == Numeral(n);
      NonNegativeAt(s, a, key, n, rest);
    }
  }

  lemma NegativeMemberAt(s: seq<byte>, a: seq<byte>, key: seq<byte>, n: int, rest: seq<byte>)
    requires s == a + Member(key, SignedNumeral(n), rest) && rest != [] && !IsDigit(rest[0])
    requires -UINT32_MAX <= n < 0
    ensures |a| <= |s| && ParseSignedField(s, |a|, key) == Some(SignedField(n, |a| + |key| + |SignedNumeral(n)|))
  {
    NegativeSplits(key, n, rest);
    NegativeAt(s, a, key, -n, rest);
  }

  lemma NegativeSplits(key: seq<byte>, n: int, rest: seq<byte>)
    requires n < 0
    ensures Member(key, SignedNumeral(n), rest) == Member(key + [MINUS], Numeral(-n), rest)
    ensures |SignedNumeral(n)| == 1 + |Numeral(-n)|
  {
    MinusJoins(key, Numeral(-n), rest);
  }

  lemma MinusJoins(key: seq<byte>, d: seq<byte>, rest: seq<byte>)
    ensures Member(key, [MINUS] + d, rest) == Member(key + [MINUS], d, rest)
  {
    assert key + ([MINUS] + d) == key + [MINUS] + d;
  }

  lemma NegativeAt(s: seq<byte>, a: seq<byte>, key: seq<byte>, n: nat, rest: seq<byte>)
    requires s == a + Member(key + [MINUS], Numeral(n), rest) && rest != [] && !IsDigit(rest[0]) && n <= UINT32_MAX
    ensures |a| <= |s|
    ensures ParseSignedField(s, |a|, key) == Some(SignedField(0 - n as int, |a| + |key| + 1 + |Numeral(n)|))
  {
    MemberAt(s, a, key + [MINUS], n, rest);
  }

  lemma NonNegativeAt(s: seq<byte>, a: seq<byte>, key: seq<byte>, n: nat, rest: seq<byte>)
    requires s == a + Member(key, Numeral(n), rest) && rest != [] && !IsDigit(rest[0]) && n <= UINT32_MAX
    ensures |a| <= |s| && ParseSignedField(s, |a|, key) == Some(SignedField(n, |a| + |key| + |Numeral(n)|))
  {
    MemberAt(s, a, key, n, rest);
    NotMinus(s, a, key, n, rest);
  }

  lemma NotMinus(s: seq<byte>, a: seq<byte>, key: seq<byte>, n: nat, rest: seq<byte>)
    requires s == a + Member(key, Numeral(n), rest)
    ensures !KeyAt(s, |a|, key + [MINUS])
  {
    assert s[|a| + |key|] == Numeral(n)[0];
    assert forall t :: |t| == |key| + 1 && t == s[|a|..|a| + |key| + 1] ==> IsDigit(t[|key|]);
  }

  /** Reading the five fields by their names, each where the one before it ended. */
  function Read(s: seq<byte>): Option<SensorReading> {
    var ts := ParseField(s, 0, Ascii("{\"timestamp\":"));
    if ts.None? then None else
    var hu := ParseField(s, ts.value.end, Ascii(",\"humidity\":"));
    if hu.None? then None else
    var te := ParseSignedField(s, hu.value.end, Ascii(",\"temperature\":"));
    if te.None? || te.value.end > |s| || !(-0x8000 <= te.value.value < 0x8000) then None else
    var mo := ParseField(s, te.value.end, Ascii(",\"moisture\":"));
    if mo.None? || mo.value.value > UINT16_MAX || hu.value.value > UINT16_MAX then None else
    var la := ParseField(s, mo.value.end, Ascii(",\"lastWatering\":"));
    if la.None? || s[la.value.end..] != Ascii("}") then None
    else Some(SensorReading(mo.value.value, te.value.value, hu.value.value, ts.value.value, la.value.value, true))
  }

  /** Every tail begins with a comma or a brace, so no number runs on. */
  lemma TailsStop(r: SensorReading)
    ensures FromHumidity(r)[0] == FromTemperature(r)[0] == FromMoisture(r)[0] == FromLastWatering(r)[0] == 44
    ensures END[0] == 125
  {
    assert KEY_HUMIDITY[0] == KEY_TEMPERATURE[0] == KEY_MOISTURE[0] == KEY_LAST_WATERING[0] == 44;
  }

  lemma FrontReadBack(r: SensorReading)
    ensures |Head1(r)| <= |Json(r)|
    ensures ParseField(Json(r), 0, KEY_TIMESTAMP) == Some(Field(r.timestamp, |Head1(r)|))
    ensures ParseField(Json(r), |Head1(r)|, KEY_HUMIDITY) == Some(Field(r.humidityRx10, |Head2(r)|))
  {
    Heads(r);
    TailsStop(r);
    assert [] + Json(r) == Json(r);
    MemberAt(Json(r), [], KEY_TIMESTAMP, r.timestamp, FromHumidity(r));
    MemberAt(Json(r), Head1(r), KEY_HUMIDITY, r.humidityRx10, FromTemperature(r));
  }

  lemma MiddleReadBack(r: SensorReading)
    ensures |Head2(r)| <= |Json(r)|
    ensures ParseSignedField(Json(r), |Head2(r)|, KEY_TEMPERATURE) == Some(SignedField(r.temperatureCx10, |Head3(r)|))
  {
    Heads(r);
    TailsStop(r);
    var t, rest := r.temperatureCx10, FromMoisture(r);
    assert FromTemperature(r) == Member(KEY_TEMPERATURE, SignedNumeral(t), rest);
    assert |Head3(r)| == |Head2(r)| + |KEY_TEMPERATURE| + |SignedNumeral(t)|;
    SignedMemberAt(Json(r), Head2(r), KEY_TEMPERATURE, t, rest);
  }

  lemma BackReadBack(r: SensorReading)
    ensures |Head4(r)| <= |Json(r)|
    ensures ParseField(Json(r), |Head3(r)|, KEY_MOISTURE) == Some(Field(r.moistureRaw, |Head4(r)|))
    ensures ParseField(Json(r), |Head4(r)|, KEY_LAST_WATERING) == Some(Field(r.lastWatering, |Head5(r)|))
  {
    Heads(r);
    TailsStop(r);
    MemberAt(Json(r), Head3(r), KEY_MOISTURE, r.moistureRaw, FromLastWatering(r));
    MemberAt(Json(r), Head4(r), KEY_LAST_WATERING, r.lastWatering, END);
  }

  lemma EndsWithBrace(r: SensorReading)
    ensures |Head1(r)| <= |Head2(r)| <= |Head3(r)| <= |Head4(r)| <= |Head5(r)| <= |Json(r)|
    ensures Json(r)[|Head5(r)|..] == END
  {
    Heads(r);
  }

  /** Nothing is lost: all five fields are read back, by the same scanner the
      firmware uses on commands. */
  lemma ReadBack(r: SensorReading)
    ensures Read(Json(r)) == Some(r.(valid := true))
  {
    FrontReadBack(r);
    MiddleReadBack(r);
    BackReadBack(r);
    EndsWithBrace(r);
  }

  /** Equal telemetry means equal readings, in every serialised field. */
  lemma JsonInjective(r: SensorReading, q: SensorReading)
    requires Json(r) == Json(q)
    ensures r.(valid := true) == q.(valid := true)
  {
    ReadBack(r);
    ReadBack(q);
  }
}

/** The sensor drivers (src/drivers/temperature_sensor.cc and
    src/drivers/moisture_sensor.cc): unpacking and scaling of a measurement, and the
    stand-in moisture source both device loops read. */
module Sensors {
  import opened Wrappers
  import opened Bytes
  import opened Frames

  const INT32_MAX := 0x7FFF_FFFF
  const TWO_20 := 0x10_0000

  type Field20 = n: int | 0 <= n < 0x10_0000

  // ---- Unpacking ---------------------------------------------------------

  lemma {:induction false} OrSwap(a: nat, b: nat)
    ensures BitOr(a, b) == BitOr(b, a)
    decreases a + b
  {
    if a > 0 && b > 0 {
      OrSwap(a / 2, b / 2);
    }
  }

  lemma OrSwapped(a: nat, b: nat, sum: nat)
    requires BitOr(a, b) == sum
    ensures BitOr(b, a) == sum
  {
    OrSwap(a, b);
  }

  /** Or-ing a low part under a shifted high part adds them. */
  lemma OrLow(high: nat, low: nat, k: nat)
    requires low < Pow2(k)
    ensures BitOr(high * Pow2(k), low) == high * Pow2(k) + low
  {
    OrDisjoint(low, high, k);
    OrSwapped(low, high * Pow2(k), low + high * Pow2(k));
  }

  lemma ShiftSizes()
    ensures Pow2(4) == 16 && Pow2(8) == 256 && Pow2(12) == 4096 && Pow2(16) == 65536
  {
    assert Pow2(4) == 16;
    assert Pow2(8) == 16 * Pow2(4) by { assert Pow2(6) == 4 * Pow2(4); }
    assert Pow2(12) == 16 * Pow2(8) by { assert Pow2(10) == 4 * Pow2(8); }
    assert Pow2(16) == 16 * Pow2(12) by { assert Pow2(14) == 4 * Pow2(12); }
  }

  /** A multiple of 2^k has no bit in common with anything below 2^k. */
  lemma OrUnder(n: nat, upper: nat, low: nat, k: nat)
    requires n == upper * Pow2(k) && low < Pow2(k)
    ensures BitOr(n, low) == n + low
  {
    OrLow(upper, low, k);
  }

  /** Three parts or-ed together, the upper two being multiples of 2^m and 2^k. */
  lemma OrThree(p: nat, q: nat, low: nat, high: nat, upper: nat, m: nat, k: nat)
    requires p == high * Pow2(m) && q < Pow2(m)
    requires p + q == upper * Pow2(k) && low < Pow2(k)
    ensures BitOr(BitOr(p, q), low) == p + q + low
  {
    OrUnder(p, high, q, m);
    OrUnder(p + q, upper, low, k);
  }

  /** The raw humidity: the upper twenty of the forty data bits. */
  function RawHumidity(buf: seq<byte>): nat
    requires |buf| == 6
  {
    BitOr(BitOr(buf[1] * Pow2(12), buf[2] * Pow2(4)), buf[3] / 16)
  }

  /** The raw temperature: the lower twenty. */
  function RawTemperature(buf: seq<byte>): nat
    requires |buf| == 6
  {
    BitOr(BitOr(buf[3] % 16 * Pow2(16), buf[4] * Pow2(8)), buf[5])
  }

  /** The number a byte string spells, most significant byte first. */
  function BigEndian(s: seq<byte>): nat {
    if s == [] then 0 else BigEndian(s[..|s| - 1]) * 256 + s[|s| - 1]
  }

  lemma BigEndianStep(s: seq<byte>, b: byte)
    ensures BigEndian(s + [b]) == BigEndian(s) * 256 + b
  {
    assert (s + [b])[..|s|] == s;
  }

  lemma {:induction false} BigEndianInjective(s: seq<byte>, t: seq<byte>)
    requires |s| == |t| && BigEndian(s) == BigEndian(t)
    ensures s == t
  {
    if s != [] {
      var k := |s| - 1;
      BigEndianInjective(s[..k], t[..k]);
      assert s == s[..k] + [s[k]] && t == t[..k] + [t[k]];
    }
  }

  lemma BigEndianOfFive(a: byte, b: byte, c: byte, d: byte, e: byte)
    ensures BigEndian([a, b, c, d, e]) == (((a * 256 + b) * 256 + c) * 256 + d) * 256 + e
  {
    BigEndianStep([], a);
    BigEndianStep([a], b);
    BigEndianStep([a, b], c);
    BigEndianStep([a, b, c], d);
    BigEndianStep([a, b, c, d], e);
    assert [] + [a] == [a] && [a] + [b] == [a, b] && [a, b] + [c] == [a, b, c];
    assert [a, b, c] + [d] == [a, b, c, d] && [a, b, c, d] + [e] == [a, b, c, d, e];
  }

  function Sum(high: nat, highWeight: nat, mid: nat, midWeight: nat, low: nat): nat {
    high * highWeight + mid * midWeight + low
  }

  lemma RawSums(buf: seq<byte>)
    requires |buf| == 6
    ensures RawHumidity(buf) == Sum(buf[1], 4096, buf[2], 16, buf[3] / 16)
    ensures RawTemperature(buf) == Sum(buf[3] % 16, 65536, buf[4], 256, buf[5])
  {
    ShiftSizes();
    var b1: nat, b2: nat, b4: nat, lead: nat := buf[1], buf[2], buf[4], buf[3] % 16;
    OrThree(b1 * Pow2(12), b2 * Pow2(4), buf[3] / 16, b1, b1 * 256 + b2, 12, 4);
    OrThree(lead * Pow2(16), b4 * Pow2(8), buf[5], lead, lead * 256 + b4, 16, 8);
  }

  /** The two fields are disjoint and lose nothing: side by side they are the forty
      data bits, read as one big-endian number. */
  lemma FieldsAreTheFortyBits(buf: seq<byte>)
    requires |buf| == 6
    ensures RawHumidity(buf) < TWO_20 && RawTemperature(buf) < TWO_20
    ensures RawHumidity(buf) * TWO_20 + RawTemperature(buf) == BigEndian(buf[1..])
  {
    RawSums(buf);
    assert buf[1..] == [buf[1], buf[2], buf[3], buf[4], buf[5]];
    BigEndianOfFive(buf[1], buf[2], buf[3], buf[4], buf[5]);
  }

  lemma FieldsDetermineTheBytes(a: seq<byte>, b: seq<byte>)
    requires |a| == |b| == 6
    ensures RawHumidity(a) == RawHumidity(b) && RawTemperature(a) == RawTemperature(b) <==> a[1..] == b[1..]
  {
    FieldsAreTheFortyBits(a);
    FieldsAreTheFortyBits(b);
    if RawHumidity(a) == RawHumidity(b) && RawTemperature(a) == RawTemperature(b) {
      BigEndianInjective(a[1..], b[1..]);
    }
    if a[1..] == b[1..] {
      assert a[1] == a[1..][0] && a[2] == a[1..][1] && a[3] == a[1..][2] && a[4] == a[1..][3] && a[5] == a[1..][4];
      assert b[1] == b[1..][0] && b[2] == b[1..][1] && b[3] == b[1..][2] && b[4] == b[1..][3] && b[5] == b[1..][4];
      RawSums(a);
      RawSums(b);
    }
  }

  // ---- Scaling -----------------------------------------------------------

  /** `t` tenths of a degree is rawT / 2^20 * 200 - 50 degrees, rounded down. */
  predicate IsTemperature(raw: nat, t: int) {
    t * TWO_20 <= 2000 * raw - 500 * TWO_20 < (t + 1) * TWO_20
  }

  /** `h` tenths of a percent is rawH / 2^20 * 100 percent, rounded down. */
  predicate IsHumidity(raw: nat, h: int) {
    h * TWO_20 <= 1000 * raw < (h + 1) * TWO_20
  }

  /** parse_measurement; None stands for the null out-pointer. No product leaves the
      32 bits the firmware computes in, and both results fit their 16-bit types. */
  method ParseMeasurement(buf: seq<byte>, wantTemperature: bool, wantHumidity: bool)
    returns (celsiusX10: Option<int16>, humidityRx10: Option<uint16>)
    requires |buf| == 6
    ensures celsiusX10.Some? == wantTemperature && humidityRx10.Some? == wantHumidity
    ensures wantTemperature ==> IsTemperature(RawTemperature(buf), celsiusX10.value)
    ensures wantTemperature ==> -500 <= celsiusX10.value <= 1499
    ensures wantHumidity ==> IsHumidity(RawHumidity(buf), humidityRx10.value)
    ensures wantHumidity ==> 0 <= humidityRx10.value <= 999
  {
    FieldsAreTheFortyBits(buf);
    var rawH, rawT := RawHumidity(buf), RawTemperature(buf);
    celsiusX10, humidityRx10 := None, None;
    if wantTemperature {
      var product := rawT * 2000;
      assert product <= INT32_MAX;
      celsiusX10 := Some(product / TWO_20 - 500);
    }
    if wantHumidity {
      var product: uint32 := rawH * 1000;
      humidityRx10 := Some(product / TWO_20);
    }
  }

  /** The scale is monotone, hence single-valued, and uses its whole range: every
      tenth from -50.0 to 149.9 degrees comes from some raw value, and nothing else. */
  lemma TemperatureScale(t: int)
    ensures forall raw, raw', u, u' ::
      raw <= raw' && IsTemperature(raw, u) && IsTemperature(raw', u') ==> u <= u'
    ensures -500 <= t <= 1499 <==> exists raw: Field20 :: IsTemperature(raw, t)
  {
    if -500 <= t <= 1499 {
      var raw := ((t + 500) * TWO_20 + 1999) / 2000;
      assert IsTemperature(raw, t);
    }
  }

  /** The same for the humidity, from 0.0 to 99.9 percent. */
  lemma HumidityScale(h: int)
    ensures forall raw, raw', u, u' ::
      raw <= raw' && IsHumidity(raw, u) && IsHumidity(raw', u') ==> u <= u'
    ensures 0 <= h <= 999 <==> exists raw: Field20 :: IsHumidity(raw, h)
  {
    if 0 <= h <= 999 {
      var raw := (h * TWO_20 + 999) / 1000;
      assert IsHumidity(raw, h);
    }
  }

  datatype ReadError = BadArguments | Bus | Busy

  /** What the sensor answers during one call: the status byte, whether the init
      command went through, and the six bytes measured; None is a bus error. */
  datatype Answers = Answers(status: Option<byte>, initOk: bool, measured: Option<seq<byte>>)

  class TemperatureSensor {
    var initialized: bool
    ghost var initCommands: nat

    /** ensure_calibrated: bit 3 of the status is the calibration bit. */
    method EnsureCalibrated(a: Answers) returns (ok: bool)
      modifies this`initCommands
      ensures ok == (a.status.Some? && (a.status.value / 8 % 2 == 1 || a.initOk))
      ensures initCommands == old(initCommands) +
        if a.status.Some? && a.status.value / 8 % 2 == 0 then 1 else 0
    {
      if a.status.None? {
        return false;
      }
      if a.status.value / 8 % 2 == 0 {
        initCommands := initCommands + 1;
        return a.initOk;
      }
      ok := true;
    }

    /** temperature_read_both. The out-parameters are written on success only; once
        calibrated, the sensor is never calibrated again. */
    method ReadBoth(wantTemperature: bool, wantHumidity: bool, a: Answers)
      returns (error: Option<ReadError>, celsiusX10: Option<int16>, humidityRx10: Option<uint16>)
      requires a.measured.Some? ==> |a.measured.value| == 6
      modifies this
      ensures old(initialized) ==> initialized && initCommands == old(initCommands)
      ensures error == Some(BadArguments) <==> !wantTemperature && !wantHumidity
      ensures error.None? <==>
        (wantTemperature || wantHumidity) && initialized && a.measured.Some? && a.measured.value[0] < 128
      ensures error == Some(Busy) <==>
        (wantTemperature || wantHumidity) && initialized && a.measured.Some? && a.measured.value[0] >= 128
      ensures initialized == (old(initialized) ||
        ((wantTemperature || wantHumidity) && a.status.Some? && (a.status.value / 8 % 2 == 1 || a.initOk)))
      ensures celsiusX10.Some? == (error.None? && wantTemperature)
      ensures humidityRx10.Some? == (error.None? && wantHumidity)
      ensures celsiusX10.Some? ==> IsTemperature(RawTemperature(a.measured.value), celsiusX10.value)
      ensures humidityRx10.Some? ==> IsHumidity(RawHumidity(a.measured.value), humidityRx10.value)
    {
      celsiusX10, humidityRx10 := None, None;
      if !wantTemperature && !wantHumidity {
        return Some(BadArguments), None, None;
      }
      if !initialized {
        var ok := EnsureCalibrated(a);
        if !ok {
          return Some(Bus), None, None;
        }
        initialized := true;
      }
      if a.measured.None? {
        return Some(Bus), None, None;
      }
      if a.measured.value[0] >= 128 {
        return Some(Busy), None, None;
      }
      celsiusX10, humidityRx10 := ParseMeasurement(a.measured.value, wantTemperature, wantHumidity);
      error := None;
    }
  }

  // ---- The stand-in moisture source --------------------------------------

  const FAKE_FIRST: uint16 := 310
  const FAKE_RESET: uint16 := 900
  const FAKE_STEP: uint16 := 60
  const FAKE_LOW: uint16 := 300

  /** What the source holds after handing out `v`; the subtraction cannot underflow. */
  function Next(v: uint16): uint16 {
    if v < FAKE_LOW then FAKE_RESET else v - FAKE_STEP
  }

  /** The n-th reading, counted from 0, whoever takes it. */
  function Reading(n: nat): uint16 {
    if n == 0 then FAKE_FIRST else Next(Reading(n - 1))
  }

  class MoistureSource {
    var held: uint16
    ghost var taken: nat  // readings handed out so far

    ghost predicate Valid()
      reads this
    {
      held == Reading(taken)
    }

    constructor ()
      ensures Valid() && taken == 0
    {
      held, taken := FAKE_FIRST, 0;
    }

    /** moisture_read_raw_mock with a place to put the reading. */
    method ReadRaw() returns (raw: uint16)
      requires Valid()
      modifies this
      ensures Valid() && taken == old(taken) + 1
      ensures raw == Reading(old(taken))
    {
      raw := held;
      if held < FAKE_LOW {
        held := FAKE_RESET;
      } else {
        held := held - FAKE_STEP;
      }
      taken := taken + 1;
    }
  }

  lemma {:induction false} ClosedForm(n: nat)
    ensures n == 0 ==> Reading(n) == 310
    ensures n == 1 ==> Reading(n) == 250
    ensures n >= 2 ==> Reading(n) == 900 - 60 * ((n - 2) % 12)
  {
    if n > 0 {
      ClosedForm(n - 1);
    }
  }

  /** The readings that trip the default threshold: one in twelve. */
  predicate LowAt(n: nat) {
    n % 12 == 1
  }

  lemma LowReadings(n: nat)
    ensures Reading(n) < FAKE_LOW <==> LowAt(n)
  {
    ClosedForm(n);
    if n >= 2 {
      LowInPeriod(n);
    }
  }

  lemma LowInPeriod(n: nat)
    requires n >= 2
    ensures 900 - 60 * ((n - 2) % 12) < 300 <==> LowAt(n)
  {
    assert (n - 2) % 12 == (n + 10) % 12;
  }

  /** Among the twelve readings from `n` on, the k-th is the only low one. */
  predicate OnlyLow(n: nat, k: nat) {
    n <= k < n + 12 && Reading(k) < FAKE_LOW &&
    (forall j :: n <= j < n + 12 && Reading(j) < FAKE_LOW ==> j == k)
  }

  /** The first low one among them. */
  function NextLow(n: nat): (k: nat)
    ensures n <= k < n + 12 && LowAt(k)
    ensures forall j :: n <= j < n + 12 && LowAt(j) ==> j == k
  {
    n + (13 - n % 12) % 12
  }

  /** Any twelve consecutive readings contain exactly one below the threshold. */
  lemma OneLowInTwelve(n: nat)
    ensures exists k :: OnlyLow(n, k)
  {
    var k := NextLow(n);
    LowReadings(k);
    forall j | n <= j < n + 12 && Reading(j) < FAKE_LOW ensures j == k {
      LowReadings(j);
    }
    assert OnlyLow(n, k);
  }
}

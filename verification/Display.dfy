/** The line printer of the display (src/display/display.cc): one-decimal numbers
    written through a moving pointer into a 24-byte buffer that three lines share. */
module Display {
  import opened Wrappers
  import opened Bytes
  import opened Decimal
  import opened PolicyEngine
  import opened TelemetryJson

  const DOT: byte := 46
  const LINE_MAX := 24

  // ---- One-decimal numbers -----------------------------------------------

  function Magnitude(v: int): nat {
    if v < 0 then -v else v
  }

  function Sign(negative: bool): seq<byte> {
    if negative then [MINUS] else []
  }

  function Dotted(negative: bool, q: nat, r: nat): seq<byte> {
    Sign(negative) + Numeral(q) + ([DOT] + Numeral(r))
  }

  function Divided(negative: bool, n: nat, divisor: nat): seq<byte>
    requires divisor > 0
  {
    Dotted(negative, n / divisor, n % divisor)
  }

  /** The text of append_decimal: quotient and remainder, each printed in full. */
  function DecimalText(v: int, divisor: nat): seq<byte>
    requires divisor > 0
  {
    Divided(v < 0, Magnitude(v), divisor)
  }

  /** A decimal fraction as read off a text: its digits before and after the dot. */
  datatype Fraction = Fraction(negative: bool, whole: nat, frac: nat, places: nat) {
    /** The number is Scaled() / 10^places. */
    function Scaled(): int {
      var n := whole * Pow10(places) + frac;
      if negative then -n else n
    }
  }

  /** An independent reader: optional minus, digits, a dot, digits, nothing more. */
  function ReadDecimal(s: seq<byte>): Option<Fraction> {
    var negative := s != [] && s[0] == 45;
    var start := if negative then 1 else 0;
    var dot := RunEnd(s, start);
    if dot == start || dot == |s| || s[dot] != 46 then None
    else
      var end := RunEnd(s, dot + 1);
      if end == dot + 1 || end != |s| then None
      else Some(Fraction(negative, Value(s[start..dot]), Value(s[dot + 1..end]), end - (dot + 1)))
  }

  lemma Runs(sign: seq<byte>, d: seq<byte>, e: seq<byte>)
    requires AllDigits(d) && AllDigits(e)
    ensures var s := sign + d + ([DOT] + e); var dot := |sign| + |d|;
      RunEnd(s, |sign|) == dot && s[|sign|..dot] == d && s[dot] == DOT &&
      RunEnd(s, dot + 1) == |s| && s[dot + 1..|s|] == e
  {
    var s := sign + d + ([DOT] + e);
    RunOf(sign, d, [DOT] + e);
    var before := sign + d + [DOT];
    assert s == before + e + [];
    RunOf(before, e, []);
  }

  lemma {:induction false} ReadParts(sign: seq<byte>, d: seq<byte>, e: seq<byte>)
    requires sign == [] || sign == [MINUS]
    requires d != [] && AllDigits(d) && e != [] && AllDigits(e)
    ensures ReadDecimal(sign + d + ([DOT] + e)) == Some(Fraction(sign != [], Value(d), Value(e), |e|))
  {
    var s := sign + d + ([DOT] + e);
    assert sign == [] ==> s[0] == d[0];
    Runs(sign, d, e);
  }

  /** Reading the text back gives sign, quotient and remainder. */
  lemma DottedReadBack(negative: bool, q: nat, r: nat)
    ensures ReadDecimal(Dotted(negative, q, r)) == Some(Fraction(negative, q, r, |Numeral(r)|))
  {
    ReadParts(Sign(negative), Numeral(q), Numeral(r));
    ValueOfNumeral(q);
    ValueOfNumeral(r);
  }

  lemma DottedInjective(m: bool, q: nat, r: nat, n: bool, t: nat, u: nat)
    requires Dotted(m, q, r) == Dotted(n, t, u)
    ensures m == n && q == t && r == u
  {
    DottedReadBack(m, q, r);
    DottedReadBack(n, t, u);
  }

  lemma AtLeastOnce(q: nat, divisor: nat)
    requires divisor > 0
    ensures q * divisor >= q
  {
    assert q * divisor == q + q * (divisor - 1);
  }

  lemma QuotientFits(n: nat, divisor: nat)
    requires divisor > 0
    ensures 0 <= n / divisor <= n
  {
    AtLeastOnce(n / divisor, divisor);
  }

  lemma SameQuotientRemainder(m: nat, n: nat, divisor: nat)
    requires divisor > 0 && m / divisor == n / divisor && m % divisor == n % divisor
    ensures m == n
  {
    var q := m / divisor;
    assert m == q * divisor + m % divisor;
    assert n == q * divisor + n % divisor;
  }

  lemma DividedParts(negative: bool, n: nat, divisor: nat) returns (q: nat, r: nat)
    requires divisor > 0
    ensures q == n / divisor && r == n % divisor && Divided(negative, n, divisor) == Dotted(negative, q, r)
  {
    q, r := n / divisor, n % divisor;
  }

  lemma DividedInjective(a: bool, m: nat, b: bool, n: nat, divisor: nat)
    requires divisor > 0 && Divided(a, m, divisor) == Divided(b, n, divisor)
    ensures a == b && m == n
  {
    var q, r := DividedParts(a, m, divisor);
    var t, u := DividedParts(b, n, divisor);
    DottedInjective(a, q, r, b, t, u);
    SameQuotientRemainder(m, n, divisor);
  }

  /** The text determines the number, whatever the divisor. */
  lemma DecimalInjective(v: int, w: int, divisor: nat)
    requires divisor > 0 && DecimalText(v, divisor) == DecimalText(w, divisor)
    ensures v == w
  {
    DividedInjective(v < 0, Magnitude(v), w < 0, Magnitude(w), divisor);
  }

  /** The fraction is exactly v / divisor. */
  predicate Equals(f: Fraction, v: int, divisor: nat) {
    f.Scaled() * divisor == v * Pow10(f.places)
  }

  /** `s` reads as exactly v / divisor. */
  predicate Shows(s: seq<byte>, v: int, divisor: nat) {
    var f := ReadDecimal(s);
    f.Some? && Equals(f.value, v, divisor)
  }

  lemma DottedShows(negative: bool, q: nat, r: nat, v: int, divisor: nat)
    ensures Shows(Dotted(negative, q, r), v, divisor) <==>
      Equals(Fraction(negative, q, r, |Numeral(r)|), v, divisor)
  {
    DottedReadBack(negative, q, r);
  }

  /** A one-digit remainder counts as tenths. */
  lemma CountsAsTenths(negative: bool, q: nat, r: nat, v: int, divisor: nat)
    requires r < 10
    ensures var n: int := 10 * q + r;
      Shows(Dotted(negative, q, r), v, divisor) <==> (if negative then -n else n) * divisor == v * 10
  {
    DottedShows(negative, q, r, v, divisor);
    Widths(r);
    assert Pow10(1) == 10;
  }

  lemma TenthsShown(v: int)
    ensures Shows(DecimalText(v, 10), v, 10)
  {
    CountsAsTenths(v < 0, Magnitude(v) / 10, Magnitude(v) % 10, v, 10);
  }

  lemma WholesShown(v: int, q: nat, r: nat)
    requires q == Magnitude(v) && r == 0
    ensures Shows(Dotted(v < 0, q, r), v, 1)
  {
    CountsAsTenths(v < 0, q, r, v, 1);
  }

  /** One, printed with a divisor above one, reads as a tenth. */
  lemma TenthShown(q: nat, r: nat, v: int, divisor: nat)
    requires q == 0 && r == v == 1
    ensures Shows(Dotted(false, q, r), v, divisor) <==> divisor == 10
  {
    CountsAsTenths(false, q, r, v, divisor);
  }

  lemma ByOne(n: nat)
    ensures n / 1 == n && n % 1 == 0
  {
  }

  lemma OneBy(divisor: nat)
    requires divisor > 1
    ensures 1 / divisor == 0 && 1 % divisor == 1
  {
  }

  /** The routine takes a divisor, but prints the remainder as if it were tenths:
      the text reads as v / divisor for every v if and only if the divisor is 10
      (or 1, where there is no remainder). Its only callers pass 10. */
  lemma ShowsTheQuotientIff(divisor: nat)
    requires divisor > 0
    ensures (forall v :: Shows(DecimalText(v, divisor), v, divisor)) <==> divisor == 1 || divisor == 10
  {
    if divisor == 1 {
      forall v ensures Shows(DecimalText(v, 1), v, 1) {
        ByOne(Magnitude(v));
        WholesShown(v, Magnitude(v), 0);
      }
    } else if divisor == 10 {
      forall v ensures Shows(DecimalText(v, 10), v, 10) {
        TenthsShown(v);
      }
    } else {
      OneBy(divisor);
      TenthShown(0, 1, 1, divisor);
      assert !Shows(DecimalText(1, divisor), 1, divisor);
    }
  }

  // ---- The routines ------------------------------------------------------

  /** append_str: the characters of `s` up to its terminator. */
  method AppendStr(line: array<byte>, p: nat, s: seq<byte>) returns (q: nat)
    requires p + |s| <= line.Length
    modifies line
    ensures q == p + |s| && line[..q] == old(line[..p]) + s && line[q..] == old(line[q..])
  {
    q := p;
    var i := 0;
    while i < |s|
      invariant 0 <= i <= |s| && q == p + i
      invariant line[..q] == old(line[..p]) + s[..i] && line[q..] == old(line[q..])
    {
      line[q] := s[i];
      q, i := q + 1, i + 1;
    }
    assert s[..i] == s;
  }

  /** append_decimal. The least int32 is left out: its negation overflows. */
  method AppendDecimal(line: array<byte>, p: nat, v: int, divisor: uint32) returns (q: nat)
    requires -0x8000_0000 < v < 0x8000_0000 && divisor > 0
    requires p + |DecimalText(v, divisor)| <= line.Length
    modifies line
    ensures q == p + |DecimalText(v, divisor)|
    ensures line[..q] == old(line[..p]) + DecimalText(v, divisor) && line[q..] == old(line[q..])
  {
    q := p;
    var magnitude := v;
    if v < 0 {
      line[q] := MINUS;
      q, magnitude := q + 1, -v;
    }
    assert line[..q] == old(line[..p]) + Sign(v < 0);
    QuotientFits(magnitude, divisor);
    var whole, frac := magnitude / divisor, magnitude % divisor;
    q := AppendDotted(line, q, whole, frac);
    assert line[..q] == old(line[..p]) + Dotted(v < 0, whole, frac);
    assert forall k :: q <= k < line.Length ==> line[k] == old(line[k]);
  }

  method AppendDotted(line: array<byte>, p: nat, whole: uint32, frac: uint32) returns (q: nat)
    requires p + |Dotted(false, whole, frac)| <= line.Length
    modifies line
    ensures q == p + |Dotted(false, whole, frac)|
    ensures line[..q] == old(line[..p]) + Dotted(false, whole, frac) && line[q..] == old(line[q..])
  {
    ghost var was := line[..];
    q := AppendUint(line, p, whole);
    ghost var head, q1 := line[..q], q;
    line[q] := DOT;
    q := q + 1;
    assert line[..q] == head + [DOT];
    ghost var mid := line[..];
    q := AppendUint(line, q, frac);
    assert line[..q] == was[..p] + Numeral(whole) + [DOT] + Numeral(frac);
    assert Dotted(false, whole, frac) == Numeral(whole) + ([DOT] + Numeral(frac));
    SameBehind(mid, was, q1 + 1, q);
    assert line[q..] == mid[q..];
  }

  lemma SameBehind(s: seq<byte>, t: seq<byte>, i: nat, j: nat)
    requires i <= j <= |s| == |t| && s[i..] == t[i..]
    ensures s[j..] == t[j..]
  {
    assert s[j..] == s[i..][j - i..];
    assert t[j..] == t[i..][j - i..];
  }

  // ---- The three lines ---------------------------------------------------

  function TempLine(r: SensorReading): seq<byte> {
    Ascii("Temp: ") + DecimalText(r.temperatureCx10, 10) + Ascii(" C")
  }

  function HumLine(r: SensorReading): seq<byte> {
    Ascii("Hum:  ") + DecimalText(r.humidityRx10, 10) + Ascii(" %")
  }

  function MoistLine(r: SensorReading): seq<byte> {
    Ascii("Moist: ") + Numeral(r.moistureRaw)
  }

  lemma TenthsWidth(v: int, max: nat)
    requires Magnitude(v) < 10 * Pow10(max) && max > 0
    ensures |DecimalText(v, 10)| <= |Sign(v < 0)| + max + 2
  {
    NumeralLength(Magnitude(v) / 10, max);
    Widths(Magnitude(v) % 10);
  }

  /** With its terminator, every line of every reading fits the buffer: the longest
      takes 16 of the 24 bytes. */
  lemma LinesFit(r: SensorReading)
    ensures |TempLine(r)| + 1 <= 16 && |HumLine(r)| + 1 <= 15 && |MoistLine(r)| + 1 <= 13
  {
    assert Pow10(4) == 10000 by { assert Pow10(2) == 100; }
    TenthsWidth(r.temperatureCx10, 4);
    TenthsWidth(r.humidityRx10, 4);
    Widths(r.moistureRaw);
  }

  /** A label, a number in tenths and a unit, from the start of the buffer. */
  method AppendLabelled(line: array<byte>, caption: seq<byte>, v: int, unit: seq<byte>) returns (p: nat)
    requires -0x8000_0000 < v < 0x8000_0000
    requires |caption + DecimalText(v, 10) + unit| <= line.Length
    modifies line
    ensures p == |caption + DecimalText(v, 10) + unit|
    ensures line[..p] == caption + DecimalText(v, 10) + unit
  {
    p := AppendStr(line, 0, caption);
    p := AppendDecimal(line, p, v, 10);
    p := AppendStr(line, p, unit);
  }

  /** What a reader of a NUL-terminated string sees. */
  function CString(s: seq<byte>): seq<byte>
    requires 0 in s
  {
    if s[0] == 0 then [] else [s[0]] + CString(s[1..])
  }

  lemma {:induction false} CStringUpToNul(t: seq<byte>, rest: seq<byte>)
    requires 0 !in t
    ensures CString(t + [0] + rest) == t
  {
    var s := t + [0] + rest;
    assert s[|t|] == 0;
    if t == [] {
    } else {
      CStringUpToNul(t[1..], rest);
      assert s[1..] == t[1..] + [0] + rest;
    }
  }

  lemma DottedHasNoNul(negative: bool, q: nat, r: nat)
    ensures 0 !in Dotted(negative, q, r)
  {
    assert forall i :: 0 <= i < |Numeral(q)| ==> IsDigit(Numeral(q)[i]);
    assert forall i :: 0 <= i < |Numeral(r)| ==> IsDigit(Numeral(r)[i]);
  }

  lemma CaptionedHasNoNul(caption: seq<byte>, text: seq<byte>, unit: seq<byte>)
    requires 0 !in caption && 0 !in text && 0 !in unit
    ensures 0 !in caption + text + unit
  {
  }

  lemma LinesHaveNoNul(r: SensorReading)
    ensures 0 !in TempLine(r) && 0 !in HumLine(r) && 0 !in MoistLine(r)
  {
    var t, h := Magnitude(r.temperatureCx10), Magnitude(r.humidityRx10);
    DottedHasNoNul(r.temperatureCx10 < 0, t / 10, t % 10);
    DottedHasNoNul(r.humidityRx10 < 0, h / 10, h % 10);
    CaptionedHasNoNul(Ascii("Temp: "), DecimalText(r.temperatureCx10, 10), Ascii(" C"));
    CaptionedHasNoNul(Ascii("Hum:  "), DecimalText(r.humidityRx10, 10), Ascii(" %"));
    assert forall i :: 0 <= i < |Numeral(r.moistureRaw)| ==> IsDigit(Numeral(r.moistureRaw)[i]);
  }

  /** A string drawn at a height on the screen. */
  datatype Drawn = Drawn(y: nat, text: seq<byte>)

  const TITLE := Drawn(3, Ascii("PlantNode"))
  const NO_DATA := Drawn(30, Ascii("No sensor data"))

  /** The screen for a reading; None is the null pointer. */
  function Screen(reading: Option<SensorReading>): seq<Drawn> {
    if reading.None? || !reading.value.valid then [TITLE, NO_DATA]
    else
      var r := reading.value;
      [TITLE, Drawn(30, TempLine(r)), Drawn(46, HumLine(r)), Drawn(62, MoistLine(r))]
  }

  /** `text` between a caption and a unit. */
  predicate Labelled(line: seq<byte>, caption: string, text: seq<byte>, unit: string) {
    line == Ascii(caption) + text + Ascii(unit)
  }

  /** The three lines say what was measured: tenths of a degree, tenths of a percent, and
      the raw moisture, each read off its line as a number. */
  ghost predicate Says(screen: seq<Drawn>, r: SensorReading) {
    |screen| == 4 &&
    (exists t :: Labelled(screen[1].text, "Temp: ", t, " C") && Shows(t, r.temperatureCx10, 10)) &&
    (exists t :: Labelled(screen[2].text, "Hum:  ", t, " %") && Shows(t, r.humidityRx10, 10)) &&
    (exists t :: Labelled(screen[3].text, "Moist: ", t, "") && AllDigits(t) && Value(t) == r.moistureRaw)
  }

  lemma ScreenSays(r: SensorReading)
    requires r.valid
    ensures Says(Screen(Some(r)), r)
  {
    var screen := Screen(Some(r));
    TenthsShown(r.temperatureCx10);
    TenthsShown(r.humidityRx10);
    ValueOfNumeral(r.moistureRaw);
    assert Labelled(screen[1].text, "Temp: ", DecimalText(r.temperatureCx10, 10), " C");
    assert Labelled(screen[2].text, "Hum:  ", DecimalText(r.humidityRx10, 10), " %");
    assert Ascii("") == [] && MoistLine(r) + [] == MoistLine(r);
    assert Labelled(screen[3].text, "Moist: ", Numeral(r.moistureRaw), "");
  }

  lemma ExampleNumerals()
    ensures Numeral(23) == [50, 51] && Numeral(45) == [52, 53] && Numeral(5) == [53]
    ensures Numeral(1234) == [49, 50, 51, 52]
  {
    assert Numeral(2) == [50] && Numeral(4) == [52];
    assert Numeral(12) == [49, 50] by { assert Numeral(1) == [49]; }
    assert Numeral(123) == [49, 50, 51];
  }

  lemma ExampleTexts()
    ensures Ascii("Temp: ") + [50, 51, 46, 53] + Ascii(" C") == Ascii("Temp: 23.5 C")
    ensures Ascii("Hum:  ") + [52, 53, 46, 53] + Ascii(" %") == Ascii("Hum:  45.5 %")
    ensures Ascii("Moist: ") + [49, 50, 51, 52] == Ascii("Moist: 1234")
  {
  }

  /** The example of the display's own comments, on the whole screen. */
  lemma ScreenExample(r: SensorReading)
    requires r.valid && r.temperatureCx10 == 235 && r.humidityRx10 == 455 && r.moistureRaw == 1234
    ensures Screen(Some(r)) ==
      [Drawn(3, Ascii("PlantNode")), Drawn(30, Ascii("Temp: 23.5 C")), Drawn(46, Ascii("Hum:  45.5 %")),
       Drawn(62, Ascii("Moist: 1234"))]
  {
    ExampleNumerals();
    ExampleTexts();
    assert DecimalText(235, 10) == [50, 51, 46, 53];
    assert DecimalText(455, 10) == [52, 53, 46, 53];
  }

  predicate DigitAt(screen: seq<Drawn>, i: nat, k: nat) {
    i < |screen| && k < |screen[i].text| && IsDigit(screen[i].text[k])
  }

  ghost predicate ShowsDigits(screen: seq<Drawn>) {
    exists i, k :: DigitAt(screen, i, k)
  }

  /** A number is on the screen if and only if there is a valid reading. */
  lemma NumbersIffValid(reading: Option<SensorReading>)
    ensures ShowsDigits(Screen(reading)) <==> reading.Some? && reading.value.valid
  {
    NoDigitsWithoutData();
    if reading.Some? && reading.value.valid {
      var n := Numeral(reading.value.moistureRaw);
      assert MoistLine(reading.value)[7] == n[0];
      assert DigitAt(Screen(reading), 3, 7);
    }
  }

  lemma NoDigitsWithoutData()
    ensures forall k :: 0 <= k < |TITLE.text| ==> !IsDigit(TITLE.text[k])
    ensures forall k :: 0 <= k < |NO_DATA.text| ==> !IsDigit(NO_DATA.text[k])
  {
  }

  class Lcd {
    var drawn: seq<Drawn>

    /** Writes the terminator and draws what the buffer then spells, whatever older
        text is still behind it. */
    method DrawLine(y: nat, line: array<byte>, p: nat, ghost text: seq<byte>)
      requires p < line.Length && line[..p] == text && 0 !in text
      modifies this, line
      ensures drawn == old(drawn) + [Drawn(y, text)]
    {
      line[p] := 0;
      CStringUpToNul(line[..p], line[p + 1..]);
      assert line[..] == line[..p] + [0] + line[p + 1..];
      drawn := drawn + [Drawn(y, CString(line[..]))];
    }

    /** display_sensor_readings, with one buffer for the three lines. */
    method SensorReadings(reading: Option<SensorReading>)
      modifies this
      ensures drawn == Screen(reading)
      ensures reading.None? || !reading.value.valid ==>
        drawn == [Drawn(3, Ascii("PlantNode")), Drawn(30, Ascii("No sensor data"))]
    {
      drawn := [TITLE];
      if reading.None? || !reading.value.valid {
        drawn := drawn + [NO_DATA];
        return;
      }
      var r := reading.value;
      LinesFit(r);
      LinesHaveNoNul(r);
      var line := new byte[LINE_MAX](_ => 0);
      var p := AppendLabelled(line, Ascii("Temp: "), r.temperatureCx10, Ascii(" C"));
      DrawLine(30, line, p, TempLine(r));
      p := AppendLabelled(line, Ascii("Hum:  "), r.humidityRx10, Ascii(" %"));
      DrawLine(46, line, p, HumLine(r));
      p := AppendStr(line, 0, Ascii("Moist: "));
      p := AppendUint(line, p, r.moistureRaw);
      DrawLine(62, line, p, MoistLine(r));
    }
  }

  lemma Enclosed(a: seq<byte>, s: seq<byte>, t: seq<byte>, c: seq<byte>)
    requires a + s + c == a + t + c
    ensures s == t
  {
    var n := |a + s + c|;
    assert s == (a + s + c)[|a|..n - |c|];
    assert t == (a + t + c)[|a|..n - |c|];
  }

  /** Two valid readings with the same screen agree on everything the screen shows. */
  lemma ScreenInjective(r: SensorReading, s: SensorReading)
    requires r.valid && s.valid && Screen(Some(r)) == Screen(Some(s))
    ensures r.temperatureCx10 == s.temperatureCx10 && r.humidityRx10 == s.humidityRx10
    ensures r.moistureRaw == s.moistureRaw
  {
    assert Screen(Some(r))[1].text == TempLine(r) && Screen(Some(s))[1].text == TempLine(s);
    Enclosed(Ascii("Temp: "), DecimalText(r.temperatureCx10, 10), DecimalText(s.temperatureCx10, 10), Ascii(" C"));
    DecimalInjective(r.temperatureCx10, s.temperatureCx10, 10);
    assert Screen(Some(r))[2].text == HumLine(r) && Screen(Some(s))[2].text == HumLine(s);
    Enclosed(Ascii("Hum:  "), DecimalText(r.humidityRx10, 10), DecimalText(s.humidityRx10, 10), Ascii(" %"));
    DecimalInjective(r.humidityRx10, s.humidityRx10, 10);
    assert Screen(Some(r))[3].text == MoistLine(r) && Screen(Some(s))[3].text == MoistLine(s);
    assert MoistLine(r) + [] == MoistLine(r) && MoistLine(s) + [] == MoistLine(s);
    Enclosed(Ascii("Moist: "), Numeral(r.moistureRaw), Numeral(s.moistureRaw), []);
    NumeralInjective(r.moistureRaw, s.moistureRaw);
  }

  /** The printers and the parser agree: what WriteUint and AppendUint print for a
      32-bit number, the parser reads back as that number. */
  lemma PrintedIsParsed(v: uint32, key: seq<byte>, rest: seq<byte>)
    requires rest != [] ==> !IsDigit(rest[0])
    ensures ParseField(key + Numeral(v) + rest, 0, key) == Some(Field(v, |key| + |Numeral(v)|))
  {
    var s := key + Numeral(v) + rest;
    assert s == [] + key + Numeral(v) + rest;
    FieldInConcat(s, [], key, Numeral(v), rest);
    ValueOfNumeral(v);
    ParseFieldAt(s, 0, key, Numeral(v));
  }
}

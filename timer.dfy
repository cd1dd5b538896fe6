/** The contest stopwatch's display (app.js, `updateTimerDisplay`): elapsed whole
    seconds shown as hours, minutes and seconds, each padded to two digits. */
module Timer {
  import opened Strings

  /** One field of the display: `String(n).padStart(2, '0')`. */
  function Field(n: nat): string {
    PadStart(NatToString(n), 2, '0')
  }

  /** The text shown after `seconds` elapsed seconds. */
  function TimerDisplay(seconds: nat): string {
    Field(seconds / 3600) + ":" + Field(seconds % 3600 / 60) + ":" + Field(seconds % 60)
  }

  /** Reads a display back: hours of any width, then two-digit minutes and seconds below 60. */
  function ParseDisplay(text: string): Option<nat> {
    ParseFieldList(Split(text, ':'))
  }

  function ParseFieldList(parts: seq<string>): Option<nat> {
    if |parts| == 3 && parts[0] != "" && AllDigits(parts[0]) &&
       |parts[1]| == 2 && AllDigits(parts[1]) && DecimalValue(parts[1]) < 60 &&
       |parts[2]| == 2 && AllDigits(parts[2]) && DecimalValue(parts[2]) < 60
    then Some(DecimalValue(parts[0]) * 3600 + DecimalValue(parts[1]) * 60 + DecimalValue(parts[2]))
    else None
  }

  /** A field is a decimal string of at least two digits whose value is `n`,
      exactly two digits when `n < 100`. */
  lemma FieldFacts(n: nat)
    ensures AllDigits(Field(n)) && DecimalValue(Field(n)) == n
    ensures |Field(n)| >= 2 && ':' !in Field(n)
    ensures |Field(n)| == 2 <==> n < 100
  {
    var t := NatToString(n);
    DecimalOfNatToString(n);
    NatToStringLength(n);
    if |t| < 2 {
      var z := 2 - |t|;
      DecimalLeadingZeros(z, t);
      assert Field(n) == seq(z, _ => '0') + t;
    } else {
      assert Field(n) == t;
    }
  }

  /** Hours, minutes and seconds of the display recompose the elapsed time. */
  lemma Decompose(t: nat)
    ensures t / 3600 * 3600 + t % 3600 / 60 * 60 + t % 60 == t
    ensures t % 3600 / 60 < 60 && t % 60 < 60
    ensures t < 360000 <==> t / 3600 < 100
  {
    var r := t % 3600;
    assert t == t / 3600 * 3600 + r;
    assert r == r / 60 * 60 + r % 60;
    assert t % 60 == r % 60 by {
      assert t == (t / 3600 * 60) * 60 + r;
    }
  }

  /** Three digit fields joined by colons read back as the seconds they denote. */
  lemma ParseDigitFields(a: string, b: string, c: string, h: nat, m: nat, s: nat)
    requires a != "" && AllDigits(a) && AllDigits(b) && AllDigits(c) && |b| == 2 && |c| == 2
    requires ':' !in a && ':' !in b && ':' !in c
    requires DecimalValue(a) == h && DecimalValue(b) == m && DecimalValue(c) == s
    requires m < 60 && s < 60
    ensures ParseDisplay(a + ":" + b + ":" + c) == Some(h * 3600 + m * 60 + s)
  {
    SplitThree(a, b, c);
    ParseThree(a, b, c, h, m, s);
    assert ParseDisplay(a + ":" + b + ":" + c) == ParseFieldList([a, b, c]);
  }

  lemma SplitThree(a: string, b: string, c: string)
    requires ':' !in a && ':' !in b && ':' !in c
    ensures Split(a + ":" + b + ":" + c, ':') == [a, b, c]
  {
    assert a + ":" + b + ":" + c == a + [':'] + (b + [':'] + c);
    SplitCons(a, ':', b + [':'] + c);
    SplitCons(b, ':', c);
  }

  lemma ParseThree(a: string, b: string, c: string, h: nat, m: nat, s: nat)
    requires a != "" && AllDigits(a) && AllDigits(b) && AllDigits(c) && |b| == 2 && |c| == 2
    requires DecimalValue(a) == h && DecimalValue(b) == m && DecimalValue(c) == s
    requires m < 60 && s < 60
    ensures ParseFieldList([a, b, c]) == Some(h * 3600 + m * 60 + s)
  {
  }

  /** Every display reads back as the number of seconds it was made from. */
  lemma DisplayRoundTrip(seconds: nat)
    ensures ParseDisplay(TimerDisplay(seconds)) == Some(seconds)
  {
    var h, m, s := seconds / 3600, seconds % 3600 / 60, seconds % 60;
    Decompose(seconds);
    FieldFacts(h);
    FieldFacts(m);
    FieldFacts(s);
    ParseDigitFields(Field(h), Field(m), Field(s), h, m, s);
  }

  /** Below 100 hours the display is exactly `HH:MM:SS`: eight characters, two colons,
      and three two-digit fields that add back up to the elapsed seconds. */
  lemma DisplayShape(seconds: nat)
    requires seconds < 360000
    ensures |TimerDisplay(seconds)| == 8
    ensures TimerDisplay(seconds)[2] == ':' && TimerDisplay(seconds)[5] == ':'
    ensures AllDigits(TimerDisplay(seconds)[0..2]) && AllDigits(TimerDisplay(seconds)[3..5]) &&
            AllDigits(TimerDisplay(seconds)[6..8])
    ensures DecimalValue(TimerDisplay(seconds)[3..5]) < 60 && DecimalValue(TimerDisplay(seconds)[6..8]) < 60
    ensures DecimalValue(TimerDisplay(seconds)[0..2]) * 3600 + DecimalValue(TimerDisplay(seconds)[3..5]) * 60 +
            DecimalValue(TimerDisplay(seconds)[6..8]) == seconds
  {
    var h, m, s := seconds / 3600, seconds % 3600 / 60, seconds % 60;
    Decompose(seconds);
    var d := TimerDisplay(seconds);
    assert d == Field(h) + ":" + Field(m) + ":" + Field(s);
    FieldShape(h, m, s);
    FieldFacts(h);
    FieldFacts(m);
    FieldFacts(s);
    assert DecimalValue(d[0..2]) == h && DecimalValue(d[3..5]) == m && DecimalValue(d[6..8]) == s;
  }

  lemma FieldShape(h: nat, m: nat, s: nat)
    requires h < 100 && m < 60 && s < 60
    ensures var d := Field(h) + ":" + Field(m) + ":" + Field(s);
      |d| == 8 && d[2] == ':' && d[5] == ':' &&
      d[0..2] == Field(h) && d[3..5] == Field(m) && d[6..8] == Field(s)
  {
    FieldFacts(h);
    FieldFacts(m);
    FieldFacts(s);
    assert |Field(h)| == 2 && |Field(m)| == 2 && |Field(s)| == 2;
    Shape(Field(h), Field(m), Field(s));
  }

  lemma Shape(a: string, b: string, c: string)
    requires |a| == 2 && |b| == 2 && |c| == 2
    ensures var d := a + ":" + b + ":" + c;
      |d| == 8 && d[2] == ':' && d[5] == ':' && d[0..2] == a && d[3..5] == b && d[6..8] == c
  {
  }

  /** From 100 hours on, the hour field outgrows two digits and so does the display. */
  lemma DisplayWidth(seconds: nat)
    ensures |TimerDisplay(seconds)| == 8 <==> seconds < 360000
  {
    Decompose(seconds);
    FieldFacts(seconds / 3600);
    FieldFacts(seconds % 3600 / 60);
    FieldFacts(seconds % 60);
  }
}

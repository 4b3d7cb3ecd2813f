/**
 * The time normaliser of the planner: `toMinutes` turns a catalog label such
 * as "1:30 PM" into minutes since midnight, and `toTimeLabel` formats a
 * minute count back into a zero-padded "HH:MM AM" label.
 */
module TimeLabel {
  import opened Wrappers

  predicate IsDigit(c: char) { '0' <= c <= '9' }

  /** Every character is a decimal digit (the empty string qualifies: `Number("")` is 0). */
  predicate AllDigits(s: string) { forall i :: 0 <= i < |s| ==> IsDigit(s[i]) }

  function DigitValue(c: char): (d: nat)
    requires IsDigit(c)
    ensures d < 10
  {
    c as int - '0' as int
  }

  function DigitChar(d: nat): (c: char)
    requires d < 10
    ensures IsDigit(c) && DigitValue(c) == d
  {
    ('0' as int + d) as char
  }

  /** `Number(s)` for a string of decimal digits. */
  function DecimalValue(s: string): nat
    requires AllDigits(s)
  {
    if s == [] then 0 else DecimalValue(s[..|s| - 1]) * 10 + DigitValue(s[|s| - 1])
  }

  /** `String(n)`: the decimal digits of `n`, without leading zeros. */
  function DecimalString(n: nat): string
  {
    if n < 10 then [DigitChar(n)] else DecimalString(n / 10) + [DigitChar(n % 10)]
  }

  /** `s.padStart(width, fill)`. */
  function PadStart(s: string, width: nat, fill: char): string
  {
    if |s| >= width then s else seq(width - |s|, _ => fill) + s
  }

  /** The first piece of `s.split(sep)`: everything before the first `sep`. */
  function Before(s: string, sep: char): string
  {
    if s == [] || s[0] == sep then [] else [s[0]] + Before(s[1..], sep)
  }

  /** Everything after the first `sep` of `s` (empty when `sep` does not occur). */
  function After(s: string, sep: char): string
  {
    if s == [] then [] else if s[0] == sep then s[1..] else After(s[1..], sep)
  }

  /** The second piece of `s.split(sep)`; `None` is JavaScript's `undefined`. */
  function SecondPiece(s: string, sep: char): Option<string>
  {
    if sep in s then Some(Before(After(s, sep), sep)) else None
  }

  /**
   * The labels this model accepts for `toMinutes`: the text before the first
   * space holds a colon, and both the hour piece and the minute piece of it are
   * digit strings. This is a subset of the labels `toMinutes` turns into a
   * number, since `Number` also reads signs, decimal points and exponents.
   */
  predicate WellFormed(value: string)
  {
    var timePart := Before(value, ' ');
    ':' in timePart
    && AllDigits(Before(timePart, ':'))
    && AllDigits(Before(After(timePart, ':'), ':'))
  }

  /** `toMinutes`: minutes since midnight of a 12-hour clock label. */
  function ToMinutes(value: string): (r: int)
    requires WellFormed(value)
    ensures r >= 0
    ensures SecondPiece(value, ' ') != Some("AM") && SecondPiece(value, ' ') != Some("PM") ==>
      r == DecimalValue(Before(Before(value, ' '), ':')) * 60
        + DecimalValue(Before(After(Before(value, ' '), ':'), ':'))
  {
    var timePart := Before(value, ' ');
    var meridiem := SecondPiece(value, ' ');
    var hours := DecimalValue(Before(timePart, ':'));
    var minutes := DecimalValue(Before(After(timePart, ':'), ':'));
    var hours1 := if meridiem == Some("PM") && hours != 12 then hours + 12 else hours;
    var hours2 := if meridiem == Some("AM") && hours1 == 12 then 0 else hours1;
    hours2 * 60 + minutes
  }

  /** The two-character, zero-padded decimal form of `n` that `toTimeLabel` prints. */
  function Pad2(n: nat): string
  {
    PadStart(DecimalString(n), 2, '0')
  }

  /** The clock hour shown on a 12-hour face for a 24-hour hour: 0 and 12 show as 12. */
  function ClockHour(hours24: nat): (h: nat)
    ensures 1 <= h <= 12
  {
    var hours12 := hours24 % 12;
    if hours12 == 0 then 12 else hours12
  }

  /** `toTimeLabel`: "HH:MM AM" or "HH:MM PM" for a minute count. */
  function ToTimeLabel(totalMinutes: nat): (r: string)
    ensures |r| == 8 && r[2] == ':' && r[5] == ' '
    ensures AllDigits(r[..2]) && AllDigits(r[3..5])
    ensures 1 <= DecimalValue(r[..2]) <= 12
    ensures DecimalValue(r[..2]) % 12 == (totalMinutes / 60) % 12
    ensures DecimalValue(r[3..5]) == totalMinutes % 60
    ensures r[6..] == (if totalMinutes < 720 then "AM" else "PM")
  {
    var hours24 := totalMinutes / 60;
    var minutes := totalMinutes % 60;
    var meridiem := if hours24 >= 12 then "PM" else "AM";
    var hours12 := ClockHour(hours24);
    LabelFields(hours12, minutes, meridiem);
    Pad2(hours12) + ":" + Pad2(minutes) + " " + meridiem
  }

  /** The fields of a label assembled from two padded numbers and a meridiem. */
  lemma LabelFields(h: nat, m: nat, meridiem: string)
    requires h < 100 && m < 100 && |meridiem| == 2
    ensures var r := Pad2(h) + ":" + Pad2(m) + " " + meridiem;
      |r| == 8 && r[2] == ':' && r[5] == ' '
      && r[..2] == Pad2(h) && r[3..5] == Pad2(m) && r[6..] == meridiem
      && AllDigits(r[..2]) && AllDigits(r[3..5])
      && DecimalValue(r[..2]) == h && DecimalValue(r[3..5]) == m
  {
    Pad2Digits(h);
    Pad2Digits(m);
    var r := Pad2(h) + ":" + Pad2(m) + " " + meridiem;
    assert r == [Pad2(h)[0], Pad2(h)[1], ':', Pad2(m)[0], Pad2(m)[1], ' ', meridiem[0], meridiem[1]];
    assert r[..2] == Pad2(h);
    assert r[3..5] == Pad2(m);
    assert r[6..] == meridiem;
  }

  /** The value of a two-digit string. */
  lemma DecimalValue2(d: string)
    requires |d| == 2 && AllDigits(d)
    ensures DecimalValue(d) == DigitValue(d[0]) * 10 + DigitValue(d[1])
  {
    var d1 := d[..1];
    assert d1[..0] == [] && d1[0] == d[0] && d[..|d| - 1] == d1;
    assert DecimalValue(d1) == DigitValue(d[0]);
  }

  lemma Pad2Digits(n: nat)
    requires n < 100
    ensures Pad2(n) == [DigitChar(n / 10), DigitChar(n % 10)]
    ensures AllDigits(Pad2(n)) && DecimalValue(Pad2(n)) == n
  {
    var p := [DigitChar(n / 10), DigitChar(n % 10)];
    if n < 10 {
      assert n / 10 == 0 && n % 10 == n;
      assert DecimalString(n) == [DigitChar(n)];
      assert seq(1, _ => '0') == [DigitChar(0)];
      assert Pad2(n) == p;
    } else {
      var q := n / 10;
      assert q < 10;
      assert DecimalString(q) == [DigitChar(q)];
      assert DecimalString(n) == p;
    }
    DecimalValue2(p);
    assert DigitValue(p[0]) * 10 + DigitValue(p[1]) == (n / 10) * 10 + n % 10;
  }

  /** A two-digit string is the padded form of its own value. */
  lemma Pad2OfValue(d: string)
    requires |d| == 2 && AllDigits(d)
    ensures DecimalValue(d) < 100 && Pad2(DecimalValue(d)) == d
  {
    DecimalValue2(d);
    var v := DecimalValue(d);
    Pad2Digits(v);
    assert DigitChar(v / 10) == d[0] && DigitChar(v % 10) == d[1];
  }

  /** How `Before` and `After` split a string at the first separator. */
  lemma {:induction false} SplitAt(a: string, sep: char, b: string)
    requires sep !in a
    ensures Before(a + [sep] + b, sep) == a
    ensures After(a + [sep] + b, sep) == b
    ensures sep in a + [sep] + b
  {
    if a != [] {
      assert (a + [sep] + b)[1..] == a[1..] + [sep] + b;
      SplitAt(a[1..], sep, b);
    }
  }

  lemma {:induction false} BeforeNone(a: string, sep: char)
    requires sep !in a
    ensures Before(a, sep) == a
  {
    if a != [] {
      BeforeNone(a[1..], sep);
    }
  }

  /** The reading of a label that has the shape "H:MM AM" / "H:MM PM". */
  lemma LabelParts(hs: string, ms: string, meridiem: string)
    requires AllDigits(hs) && AllDigits(ms)
    requires meridiem == "AM" || meridiem == "PM"
    ensures WellFormed(hs + ":" + ms + " " + meridiem)
    ensures Before(Before(hs + ":" + ms + " " + meridiem, ' '), ':') == hs
    ensures Before(After(Before(hs + ":" + ms + " " + meridiem, ' '), ':'), ':') == ms
    ensures SecondPiece(hs + ":" + ms + " " + meridiem, ' ') == Some(meridiem)
  {
    var text := hs + ":" + ms + " " + meridiem;
    var timePart := hs + ":" + ms;
    assert ' ' !in timePart by {
      forall i | 0 <= i < |timePart| ensures timePart[i] != ' ' {
        if i < |hs| { assert IsDigit(hs[i]); }
        else if i > |hs| { assert IsDigit(ms[i - |hs| - 1]); }
      }
    }
    assert text == timePart + [' '] + meridiem;
    SplitAt(timePart, ' ', meridiem);
    assert ':' !in hs by {
      forall i | 0 <= i < |hs| ensures hs[i] != ':' { assert IsDigit(hs[i]); }
    }
    assert ':' !in ms by {
      forall i | 0 <= i < |ms| ensures ms[i] != ':' { assert IsDigit(ms[i]); }
    }
    assert timePart == hs + [':'] + ms;
    SplitAt(hs, ':', ms);
    BeforeNone(ms, ':');
    BeforeNone(meridiem, ' ');
  }

  /**
   * Parsing a label "H:MM AM/PM" with hour 1..12 and minute 0..59 yields the
   * clock time it names: the hour modulo 12, plus 12 hours after noon, in
   * minutes, which is a minute of the day.
   */
  lemma ToMinutesOfLabel(hs: string, ms: string, meridiem: string)
    requires AllDigits(hs) && AllDigits(ms)
    requires meridiem == "AM" || meridiem == "PM"
    requires 1 <= DecimalValue(hs) <= 12 && DecimalValue(ms) < 60
    ensures WellFormed(hs + ":" + ms + " " + meridiem)
    ensures (var r := ToMinutes(hs + ":" + ms + " " + meridiem);
      r == (DecimalValue(hs) % 12 + (if meridiem == "PM" then 12 else 0)) * 60 + DecimalValue(ms)
      && 0 <= r < 1440
      && (r < 720 <==> meridiem == "AM"))
  {
    LabelParts(hs, ms, meridiem);
    var text := hs + ":" + ms + " " + meridiem;
    var h, m := DecimalValue(hs), DecimalValue(ms);
    var pm := meridiem == "PM";
    assert meridiem == "AM" <==> !pm;
    var hour24 := if pm && h != 12 then h + 12 else if !pm && h == 12 then 0 else h;
    assert ToMinutes(text) == hour24 * 60 + m;
    MeridiemHour(h, pm);
  }

  /** The 12-hour rules of `toMinutes` agree with "hour modulo 12, plus 12 after noon". */
  lemma MeridiemHour(h: nat, pm: bool)
    requires 1 <= h <= 12
    ensures (if pm && h != 12 then h + 12 else if !pm && h == 12 then 0 else h)
      == h % 12 + (if pm then 12 else 0)
    ensures h % 12 < 12
  {
  }

  /** Formatting then parsing gives back every minute of the day. */
  lemma TimeRoundTrip(m: nat)
    requires m < 1440
    ensures WellFormed(ToTimeLabel(m))
    ensures ToMinutes(ToTimeLabel(m)) == m
  {
    var text := ToTimeLabel(m);
    var hs, ms, meridiem := text[..2], text[3..5], text[6..];
    assert text == hs + ":" + ms + " " + meridiem;
    ToMinutesOfLabel(hs, ms, meridiem);
    MinuteOfDayParts(m);
  }

  /** A minute of the day is its clock hour modulo 12, plus 12 hours from noon, plus its minutes. */
  lemma MinuteOfDayParts(m: nat)
    requires m < 1440
    ensures ((m / 60) % 12 + (if m < 720 then 0 else 12)) * 60 + m % 60 == m
  {
    var q, r := m / 60, m % 60;
    assert m == q * 60 + r;
    assert q < 24;
    assert q % 12 + (if m < 720 then 0 else 12) == q;
  }

  /** Reading back the hour and minute of a parsed label. */
  lemma ClockTimeParts(h: nat, pm: bool, mm: nat, m: nat)
    requires 1 <= h <= 12 && mm < 60
    requires m == (h % 12 + (if pm then 12 else 0)) * 60 + mm
    ensures m / 60 == h % 12 + (if pm then 12 else 0) && m % 60 == mm
    ensures ClockHour(m / 60) == h
  {
    var q := h % 12 + (if pm then 12 else 0);
    assert m == q * 60 + mm;
  }

  /** A canonical label: "HH:MM AM" or "HH:MM PM", hour 01..12, minute 00..59. */
  predicate Canonical(text: string)
  {
    |text| == 8 && text[2] == ':' && text[5] == ' '
    && AllDigits(text[..2]) && AllDigits(text[3..5])
    && 1 <= DecimalValue(text[..2]) <= 12 && DecimalValue(text[3..5]) < 60
    && (text[6..] == "AM" || text[6..] == "PM")
  }

  /** Every label `toTimeLabel` produces for a minute of the day is canonical. */
  lemma ToTimeLabelCanonical(m: nat)
    requires m < 1440
    ensures Canonical(ToTimeLabel(m))
  {
  }

  /** Parsing then formatting gives back every canonical label, byte for byte. */
  lemma LabelRoundTrip(text: string)
    requires Canonical(text)
    ensures WellFormed(text) && 0 <= ToMinutes(text) < 1440
    ensures ToTimeLabel(ToMinutes(text)) == text
  {
    var hs, ms, meridiem := text[..2], text[3..5], text[6..];
    var h, mm, pm := DecimalValue(hs), DecimalValue(ms), meridiem == "PM";
    assert text == hs + ":" + ms + " " + meridiem;
    ToMinutesOfLabel(hs, ms, meridiem);
    var m := ToMinutes(text);
    assert m == (h % 12 + (if pm then 12 else 0)) * 60 + mm;
    ClockTimeParts(h, pm, mm, m);
    assert ClockHour(m / 60) == h && m % 60 == mm;
    Pad2OfValue(hs);
    Pad2OfValue(ms);
    var out := ToTimeLabel(m);
    LabelFields(ClockHour(m / 60), m % 60, out[6..]);
    assert out[..2] == hs;
    assert out[3..5] == ms;
    assert out == out[..2] + ":" + out[3..5] + " " + out[6..];
  }
}

/** `formatDate` and `formatTime` (src/index.cjs, lines 20-45). Parsing a
    date with `new Date(...)` and reading its local fields depends on the
    host's parser and time zone, so the `Date` constructor is a parameter
    (`Clock`); what is modelled is how the fields are printed and padded. */
module Dates {
  import opened Wrappers
  import opened JsValue

  /** The local fields of a valid `Date`: `getFullYear()`, `getMonth()`
      (0-based), `getDate()`, `getHours()` and `getMinutes()`. */
  datatype LocalTime = LocalTime(year: int, month: int, day: int, hours: int, minutes: int)

  /** The host's `Date` constructor: `None` stands for an Invalid Date, whose
      fields all read as `NaN`. */
  datatype Clock = Clock(newDate: Value -> Option<LocalTime>)

  function DigitChar(d: nat): (c: char)
    requires d < 10
    ensures IsDigit(c)
  {
    ('0' as int + d) as char
  }

  function DigitOf(c: char): nat
    requires IsDigit(c)
  {
    c as int - '0' as int
  }

  predicate AllDigits(s: string) {
    forall i :: 0 <= i < |s| ==> IsDigit(s[i])
  }

  /** The number a digit string denotes. */
  function DigitsValue(s: string): nat
    requires AllDigits(s)
  {
    if s == [] then 0 else DigitsValue(s[..|s| - 1]) * 10 + DigitOf(s[|s| - 1])
  }

  function Pow10(k: nat): (p: nat)
    ensures p >= 1
  {
    if k == 0 then 1 else 10 * Pow10(k - 1)
  }

  /** `String(n)` for a natural number: its shortest decimal text. */
  function NatText(n: nat): (s: string)
    ensures |s| >= 1 && AllDigits(s)
  {
    if n < 10 then [DigitChar(n)] else NatText(n / 10) + [DigitChar(n % 10)]
  }

  /** The text of `n` reads back as `n`, and has as many digits as `n`
      needs: no leading zero. */
  lemma {:induction false} NatTextReads(n: nat)
    ensures DigitsValue(NatText(n)) == n
    ensures n < Pow10(|NatText(n)|)
    ensures |NatText(n)| > 1 ==> Pow10(|NatText(n)| - 1) <= n
  {
    if n >= 10 {
      var p := NatText(n / 10);
      var s := NatText(n);
      NatTextReads(n / 10);
      assert s == p + [DigitChar(n % 10)];
      assert s[..|s| - 1] == p;
      assert DigitsValue(s) == (n / 10) * 10 + n % 10;
      assert Pow10(|s|) == 10 * Pow10(|p|);
    }
  }

  /** `String(n)` for an integer. */
  function IntText(n: int): string {
    if n < 0 then "-" + NatText(-n) else NatText(n)
  }

  /** A non-negative number prints without a sign. */
  lemma UnsignedText(n: int)
    requires n >= 0
    ensures |IntText(n)| == |NatText(n)| && AllDigits(IntText(n)) && DigitsValue(IntText(n)) == n
  {
    assert IntText(n) == NatText(n);
    NatTextReads(n);
  }

  /** `s.padStart(2, "0")`. */
  function PadTwo(s: string): string {
    if |s| >= 2 then s else seq(2 - |s|, _ => '0') + s
  }

  /** `padStart` keeps the text at the end and fills up to two characters
      with '0' in front. */
  lemma PadTwoShape(s: string)
    ensures var r := PadTwo(s);
      && |r| == (if |s| >= 2 then |s| else 2)
      && r[|r| - |s|..] == s
      && forall i :: 0 <= i < |r| - |s| ==> r[i] == '0'
  {
  }

  /** `formatDate(v)`: `YYYY-MM-DD` from the local fields of `new Date(v)`,
      month and day zero-padded to two digits; an Invalid Date prints as
      `NaN-NaN-NaN`. The text is never shorter than five characters, and
      it shows an 'N' exactly when the date is invalid. */
  function FormatDate(clock: Clock, v: Value): (r: string)
    ensures |r| >= 5
    ensures 'N' in r <==> clock.newDate(v).None?
  {
    match clock.newDate(v)
    case None => "NaN-NaN-NaN"
    case Some(t) => DayTextShape(t); DayText(t)
  }

  /** `String(n)` for an integer has a digit and no 'N'. */
  lemma IntTextShape(n: int)
    ensures |IntText(n)| >= 1 && 'N' !in IntText(n)
  {
    var s := NatText(if n < 0 then -n else n);
    assert forall i :: 0 <= i < |s| ==> s[i] != 'N';
  }

  /** A padded field is at least two characters and has no 'N'. */
  lemma PaddedShape(n: int)
    ensures |PadTwo(IntText(n))| >= 2 && 'N' !in PadTwo(IntText(n))
  {
    var s := IntText(n);
    IntTextShape(n);
    PadTwoShape(s);
    var r := PadTwo(s);
    assert r == r[..|r| - |s|] + s;
    assert 'N' !in r[..|r| - |s|];
  }

  lemma DayTextShape(t: LocalTime)
    ensures |DayText(t)| >= 5 && 'N' !in DayText(t)
  {
    IntTextShape(t.year);
    PaddedShape(t.month + 1);
    PaddedShape(t.day);
  }

  lemma ClockTextShape(t: LocalTime)
    ensures |ClockText(t)| >= 5 && 'N' !in ClockText(t)
  {
    PaddedShape(t.hours);
    PaddedShape(t.minutes);
  }

  /** The `YYYY-MM-DD` text of valid local fields. */
  function DayText(t: LocalTime): string {
    Dashed(IntText(t.year), PadTwo(IntText(t.month + 1)), PadTwo(IntText(t.day)))
  }

  /** Three parts joined with '-'. */
  function Dashed(y: string, m: string, d: string): string {
    y + "-" + m + "-" + d
  }

  /** `formatTime(v)`: `HH:MM` from the local fields of
      `new Date("January 1, 1970 " + v)`; an Invalid Date prints as `NaN:NaN`. */
  function FormatTime(clock: Clock, v: Value): (r: string)
    ensures |r| >= 5
    ensures 'N' in r <==> clock.newDate(Str("January 1, 1970 " + JsString(v))).None?
  {
    match clock.newDate(Str("January 1, 1970 " + JsString(v)))
    case None => "NaN:NaN"
    case Some(t) => ClockTextShape(t); ClockText(t)
  }

  /** The `HH:MM` text of valid local fields. */
  function ClockText(t: LocalTime): string {
    PadTwo(IntText(t.hours)) + ":" + PadTwo(IntText(t.minutes))
  }

  // ------------------------------------------------------ reading back

  /** Digits then more digits denote the first number shifted left. */
  lemma {:induction false} DigitsAppend(a: string, b: string)
    requires AllDigits(a) && AllDigits(b)
    ensures AllDigits(a + b)
    ensures DigitsValue(a + b) == DigitsValue(a) * Pow10(|b|) + DigitsValue(b)
  {
    var x := a + b;
    assert AllDigits(x);
    if b == [] {
      assert x == a;
    } else {
      var b' := b[..|b| - 1];
      var c := DigitOf(b[|b| - 1]);
      assert x[..|x| - 1] == a + b';
      DigitsAppend(a, b');
      assert DigitsValue(x) == DigitsValue(a + b') * 10 + c;
      assert DigitsValue(b) == DigitsValue(b') * 10 + c;
      Shift(DigitsValue(a), Pow10(|b'|), DigitsValue(b'), c);
    }
  }

  lemma Shift(a: int, p: int, b: int, c: int)
    ensures (a * p + b) * 10 + c == a * (p * 10) + (b * 10 + c)
  {
  }

  /** A number below 100, printed and padded to two digits, is exactly two
      digits that read back as the number. */
  lemma TwoDigits(n: nat)
    requires n < 100
    ensures |PadTwo(IntText(n))| == 2
    ensures AllDigits(PadTwo(IntText(n)))
    ensures DigitsValue(PadTwo(IntText(n))) == n
  {
    var s := NatText(n);
    NatTextReads(n);
    Pow10Grows(|s| - 1);
    assert |s| <= 2;
    if |s| < 2 {
      assert PadTwo(s) == "0" + s;
      DigitsAppend("0", s);
    }
  }

  lemma {:induction false} Pow10Grows(k: nat)
    ensures k >= 2 ==> Pow10(k) >= 100
  {
    if k > 2 {
      Pow10Grows(k - 1);
    }
  }

  /** A valid date prints as `YYYY-MM-DD`: the year's digits, a '-', the
      1-based month in two digits, a '-', and the day in two digits, each
      part reading back as the date's field. */
  lemma FormatDateReadsBack(clock: Clock, v: Value, t: LocalTime)
    requires clock.newDate(v) == Some(t)
    requires 0 <= t.year && 0 <= t.month < 12 && 1 <= t.day <= 31
    ensures var r := FormatDate(clock, v); var n := |IntText(t.year)|;
      && |r| == n + 6 && r[n] == '-' && r[n + 3] == '-'
      && ReadsAs(r[..n], t.year) && ReadsAs(r[n + 1..n + 3], t.month + 1) && ReadsAs(r[n + 4..], t.day)
  {
    DayTextReadsBack(t);
  }

  lemma DayTextReadsBack(t: LocalTime)
    requires 0 <= t.year && 0 <= t.month < 12 && 1 <= t.day <= 31
    ensures var r := DayText(t); var n := |IntText(t.year)|;
      && |r| == n + 6 && r[n] == '-' && r[n + 3] == '-'
      && ReadsAs(r[..n], t.year) && ReadsAs(r[n + 1..n + 3], t.month + 1) && ReadsAs(r[n + 4..], t.day)
  {
    var y, m, d := IntText(t.year), PadTwo(IntText(t.month + 1)), PadTwo(IntText(t.day));
    assert ReadsAs(y, t.year) by { UnsignedText(t.year); }
    assert |m| == 2 && ReadsAs(m, t.month + 1) by { TwoDigits(t.month + 1); }
    assert |d| == 2 && ReadsAs(d, t.day) by { TwoDigits(t.day); }
    Pieces(y, m, d, t.year, t.month + 1, t.day);
  }

  /** `s` is all digits and denotes `n`. */
  predicate ReadsAs(s: string, n: int) {
    AllDigits(s) && DigitsValue(s) == n
  }

  /** Where the parts of `y-m-d` sit, for two-character `m` and `d`, and
      what they read as. */
  lemma Pieces(y: string, m: string, d: string, year: int, month: int, day: int)
    requires |m| == 2 && |d| == 2
    requires ReadsAs(y, year) && ReadsAs(m, month) && ReadsAs(d, day)
    ensures var r := Dashed(y, m, d); var n := |y|;
      && |r| == n + 6 && r[n] == '-' && r[n + 3] == '-'
      && ReadsAs(r[..n], year) && ReadsAs(r[n + 1..n + 3], month) && ReadsAs(r[n + 4..], day)
  {
    var r := Dashed(y, m, d);
    var n := |y|;
    assert r == (y + "-") + (m + "-" + d);
    assert r[..n] == y;
    assert r[n + 1..n + 3] == m;
    assert r[n + 4..] == d;
  }

  /** A valid time prints as `HH:MM`, hours and minutes in two digits each,
      reading back as the time's fields. */
  lemma FormatTimeReadsBack(clock: Clock, v: Value, t: LocalTime)
    requires clock.newDate(Str("January 1, 1970 " + JsString(v))) == Some(t)
    requires 0 <= t.hours < 24 && 0 <= t.minutes < 60
    ensures var r := FormatTime(clock, v);
      && |r| == 5 && r[2] == ':' && ReadsAs(r[..2], t.hours) && ReadsAs(r[3..], t.minutes)
  {
    var h, m := PadTwo(IntText(t.hours)), PadTwo(IntText(t.minutes));
    assert |h| == 2 && ReadsAs(h, t.hours) by { TwoDigits(t.hours); }
    assert |m| == 2 && ReadsAs(m, t.minutes) by { TwoDigits(t.minutes); }
    assert FormatTime(clock, v) == ClockText(t);
    Halves(h, m);
  }

  /** Where the parts of `h:m` sit, for two-character `h` and `m`. */
  lemma Halves(h: string, m: string)
    requires |h| == 2 && |m| == 2
    ensures var r := h + ":" + m;
      && |r| == 5 && r[2] == ':' && r[..2] == h && r[3..] == m
  {
    var r := h + ":" + m;
    assert r[..2] == h;
    assert r[3..] == m;
  }
}

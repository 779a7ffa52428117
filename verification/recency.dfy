/** Why sorting `post_date` as text puts the most recent post first: the
    `YYYY-MM-DD` text `formatDate` prints (src/index.cjs, lines 20-30) sorts,
    character by character, in calendar order, as long as the years are
    written with the same number of digits. */
module Recency {
  import opened Dates
  import opened Sorting
  import opened Assemble

  /** Local fields `formatDate` prints without a sign: a non-negative year,
      a month from 0 to 11 and a day from 1 to 31. */
  predicate Printable(t: LocalTime) {
    0 <= t.year && 0 <= t.month < 12 && 1 <= t.day <= 31
  }

  /** Calendar order: `t` is no later than `u`, by year, then month, then
      day. */
  predicate NoLaterDay(t: LocalTime, u: LocalTime) {
    || t.year < u.year
    || (t.year == u.year && t.month < u.month)
    || (t.year == u.year && t.month == u.month && t.day <= u.day)
  }

  // --------------------------------------------------------- digit text

  /** A digit string denotes less than ten to its length. */
  lemma {:induction false} DigitsBelow(s: string)
    requires AllDigits(s)
    ensures DigitsValue(s) < Pow10(|s|)
    decreases |s|
  {
    if s != [] {
      var p := s[..|s| - 1];
      assert AllDigits(p);
      DigitsBelow(p);
      assert DigitsValue(s) == DigitsValue(p) * 10 + DigitOf(s[|s| - 1]);
    }
  }

  /** The first digit weighs ten to the number of digits after it. */
  lemma FrontDigit(s: string)
    requires AllDigits(s) && s != []
    ensures AllDigits(s[1..])
    ensures DigitsValue(s) == DigitOf(s[0]) * Pow10(|s| - 1) + DigitsValue(s[1..])
  {
    var h := [s[0]];
    assert s == h + s[1..];
    assert AllDigits(h) && AllDigits(s[1..]);
    DigitsAppend(h, s[1..]);
    assert h[..0] == [];
    assert DigitsValue(h) == DigitOf(s[0]);
  }

  /** A smaller leading digit outweighs whatever follows it. */
  lemma Outweighs(x: nat, y: nat, p: nat, r: nat, s: nat)
    requires x < y && r < p
    ensures x * p + r < y * p + s
  {
    assert y * p == (x + 1) * p + (y - x - 1) * p;
    assert (y - x - 1) * p >= 0;
  }

  /** Digit strings of the same length sort as text exactly as their
      numbers sort. */
  lemma {:induction false} DigitOrder(a: string, b: string)
    requires AllDigits(a) && AllDigits(b) && |a| == |b|
    ensures LexLeq(a, b) <==> DigitsValue(a) <= DigitsValue(b)
    decreases |a|
  {
    if a != [] {
      var p := Pow10(|a| - 1);
      FrontDigit(a);
      FrontDigit(b);
      DigitsBelow(a[1..]);
      DigitsBelow(b[1..]);
      if a[0] == b[0] {
        DigitOrder(a[1..], b[1..]);
      } else if a[0] < b[0] {
        Outweighs(DigitOf(a[0]), DigitOf(b[0]), p, DigitsValue(a[1..]), DigitsValue(b[1..]));
      } else {
        Outweighs(DigitOf(b[0]), DigitOf(a[0]), p, DigitsValue(b[1..]), DigitsValue(a[1..]));
      }
    }
  }

  /** Digit strings of the same length are equal exactly when their numbers
      are. */
  lemma DigitsSame(a: string, b: string)
    requires AllDigits(a) && AllDigits(b) && |a| == |b|
    ensures a == b <==> DigitsValue(a) == DigitsValue(b)
  {
    DigitOrder(a, b);
    DigitOrder(b, a);
    if LexLeq(a, b) && LexLeq(b, a) {
      LexAntisymmetric(a, b);
    }
  }

  // ------------------------------------------------------ concatenation

  /** Behind prefixes of the same length, text order is the prefixes' order,
      or the rests' order when the prefixes are equal. */
  lemma {:induction false} LexAppend(p: string, q: string, x: string, y: string)
    requires |p| == |q|
    ensures LexLeq(p + x, q + y) <==> (p == q && LexLeq(x, y)) || (p != q && LexLeq(p, q))
    decreases |p|
  {
    if p == [] {
      assert p + x == x && q + y == y;
    } else {
      assert (p + x)[0] == p[0] && (p + x)[1..] == p[1..] + x;
      assert (q + y)[0] == q[0] && (q + y)[1..] == q[1..] + y;
      LexAppend(p[1..], q[1..], x, y);
      assert p == [p[0]] + p[1..] && q == [q[0]] + q[1..];
    }
  }

  /** `y-m-d` texts with parts of the same lengths sort by year text, then
      month text, then day text. */
  lemma DashedOrder(y: string, m: string, d: string, y': string, m': string, d': string)
    requires |y| == |y'| && |m| == |m'|
    ensures LexLeq(Dashed(y, m, d), Dashed(y', m', d')) <==>
      || (y != y' && LexLeq(y, y'))
      || (y == y' && m != m' && LexLeq(m, m'))
      || (y == y' && m == m' && LexLeq(d, d'))
  {
    var dash := "-";
    assert Dashed(y, m, d) == y + (dash + (m + (dash + d)));
    assert Dashed(y', m', d') == y' + (dash + (m' + (dash + d')));
    LexAppend(y, y', dash + (m + (dash + d)), dash + (m' + (dash + d')));
    LexAppend(dash, dash, m + (dash + d), m' + (dash + d'));
    LexAppend(m, m', dash + d, dash + d');
    LexAppend(dash, dash, d, d');
  }

  // ------------------------------------------------------------- dates

  /** `y-m-d` texts whose parts read as numbers, the years with the same
      number of digits and months and days with two, sort as text exactly in
      the order of (year, month, day). */
  lemma DashedCalendar(y: string, m: string, d: string, y': string, m': string, d': string, t: LocalTime, u: LocalTime)
    requires |y| == |y'| && |m| == 2 && |m'| == 2 && |d| == 2 && |d'| == 2
    requires ReadsAs(y, t.year) && ReadsAs(m, t.month + 1) && ReadsAs(d, t.day)
    requires ReadsAs(y', u.year) && ReadsAs(m', u.month + 1) && ReadsAs(d', u.day)
    ensures LexLeq(Dashed(y, m, d), Dashed(y', m', d')) <==> NoLaterDay(t, u)
  {
    DashedOrder(y, m, d, y', m', d');
    DigitOrder(y, y');
    DigitsSame(y, y');
    DigitOrder(m, m');
    DigitsSame(m, m');
    DigitOrder(d, d');
  }

  /** Two printed dates whose years have the same number of digits (any two
      years from 1000 to 9999, say) sort as text exactly in calendar order. */
  lemma TextOrderIsCalendarOrder(t: LocalTime, u: LocalTime)
    requires Printable(t) && Printable(u)
    requires |IntText(t.year)| == |IntText(u.year)|
    ensures LexLeq(DayText(t), DayText(u)) <==> NoLaterDay(t, u)
  {
    var y, m, d := IntText(t.year), PadTwo(IntText(t.month + 1)), PadTwo(IntText(t.day));
    var y', m', d' := IntText(u.year), PadTwo(IntText(u.month + 1)), PadTwo(IntText(u.day));
    assert LexLeq(Dashed(y, m, d), Dashed(y', m', d')) <==> NoLaterDay(t, u) by {
      assert |y| == |y'| && ReadsAs(y, t.year) && ReadsAs(y', u.year) by {
        UnsignedText(t.year);
        UnsignedText(u.year);
      }
      assert |m| == 2 && ReadsAs(m, t.month + 1) by { TwoDigits(t.month + 1); }
      assert |d| == 2 && ReadsAs(d, t.day) by { TwoDigits(t.day); }
      assert |m'| == 2 && ReadsAs(m', u.month + 1) by { TwoDigits(u.month + 1); }
      assert |d'| == 2 && ReadsAs(d', u.day) by { TwoDigits(u.day); }
      DashedCalendar(y, m, d, y', m', d', t, u);
    }
  }

  /** Four-digit years print with four digits. */
  lemma FourDigitYear(n: nat)
    requires 1000 <= n <= 9999
    ensures |IntText(n)| == 4
  {
    UnsignedText(n);
    NatTextReads(n);
    var s := NatText(n);
    if |s| > 4 {
      Pow10Atleast(|s| - 1);
    }
    if |s| < 4 {
      Pow10Small(|s|);
    }
  }

  lemma {:induction false} Pow10Atleast(k: nat)
    requires k >= 4
    ensures Pow10(k) >= 10000
  {
    if k > 4 {
      Pow10Atleast(k - 1);
    }
  }

  lemma Pow10Small(k: nat)
    requires k < 4
    ensures Pow10(k) <= 1000
  {
    assert Pow10(0) == 1;
    assert Pow10(1) == 10;
    assert Pow10(2) == 100;
    assert Pow10(3) == 1000;
  }

  /** Rows sorted by their `post_date` text, when each date was printed from
      local fields with a four-digit year, are in calendar order, most
      recent first. */
  lemma MostRecentFirst(rs: seq<seq<Field>>, ts: seq<LocalTime>)
    requires |rs| == |ts|
    requires forall i :: 0 <= i < |rs| ==> Printable(ts[i]) && 1000 <= ts[i].year <= 9999
    requires forall i :: 0 <= i < |rs| ==> DateText(rs[i]) == DayText(ts[i])
    requires Descending(rs)
    ensures forall i, j :: 0 <= i < j < |rs| ==> NoLaterDay(ts[j], ts[i])
  {
    DescendingPairwise(rs);
    forall i, j | 0 <= i < j < |rs| ensures NoLaterDay(ts[j], ts[i]) {
      FourDigitYear(ts[i].year);
      FourDigitYear(ts[j].year);
      TextOrderIsCalendarOrder(ts[j], ts[i]);
    }
  }
}

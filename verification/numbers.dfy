/** `String(number)` on the numbers a PERFORMANCE value cell can hold
    (src/index.cjs, lines 153 and 158): the printed text denotes the same
    number as the literal it came from, so a numeric cell survives the
    value cleaning as the same number with the same truthiness. */
module Numbers {
  import opened JsValue
  import opened Strings
  import opened Dates
  import opened Normalize

  /** The digits of a literal, its point left out. */
  function Digits(l: string): string {
    var k := DotIndex(l);
    if k < |l| then l[..k] + l[k + 1..] else l
  }

  /** How many digits follow the point. */
  function Places(l: string): nat {
    var k := DotIndex(l);
    if k < |l| then |l| - k - 1 else 0
  }

  /** Two decimal literals denote the same number: `Digits / 10^Places`
      agree. */
  predicate SameNumber(a: string, b: string)
    requires IsDecimalLiteral(a) && IsDecimalLiteral(b)
  {
    Magnitude(a) * Pow10(Places(b)) == Magnitude(b) * Pow10(Places(a))
  }

  /** The digits of a literal read as a whole number. */
  function Magnitude(l: string): nat
    requires IsDecimalLiteral(l)
  {
    LiteralParts(l);
    DigitsValue(Digits(l))
  }

  // ------------------------------------------------------------ zeros

  lemma {:induction false} ZerosValue(z: string)
    requires forall i :: 0 <= i < |z| ==> z[i] == '0'
    ensures AllDigits(z) && DigitsValue(z) == 0
    decreases |z|
  {
    if z != [] {
      ZerosValue(z[..|z| - 1]);
    }
  }

  /** Leading zeros add nothing to the value. */
  lemma LeadingZerosValue(s: string)
    requires AllDigits(s)
    ensures AllDigits(DropLeadingZeros(s))
    ensures DigitsValue(DropLeadingZeros(s)) == DigitsValue(s)
  {
    var w := DropLeadingZeros(s);
    var z := s[..|s| - |w|];
    assert s == z + w;
    ZerosValue(z);
    DigitsAppend(z, w);
  }

  /** Trailing zeros scale the value by a power of ten. */
  lemma TrailingZerosValue(g: string)
    requires AllDigits(g)
    ensures AllDigits(DropTrailingZeros(g))
    ensures DigitsValue(g) == DigitsValue(DropTrailingZeros(g)) * Pow10(|g| - |DropTrailingZeros(g)|)
  {
    var f := DropTrailingZeros(g);
    var z := g[|f|..];
    assert g == f + z;
    ZerosValue(z);
    DigitsAppend(f, z);
  }

  lemma {:induction false} Pow10Add(a: nat, b: nat)
    ensures Pow10(a + b) == Pow10(a) * Pow10(b)
    decreases a
  {
    if a > 0 {
      Pow10Add(a - 1, b);
      assert Pow10(a + b) == 10 * Pow10(a - 1 + b);
    }
  }

  /** The arithmetic of dropping `z` trailing zeros from a fraction of
      `p * z` places. */
  lemma Rescale(h: int, f: int, p: int, z: int, v: int, w: int, pg: int)
    requires pg == p * z
    requires v == h * pg + f * z
    requires w == h * p + f
    ensures v * p == w * pg
  {
    calc {
      v * p;
      (h * (p * z) + f * z) * p;
      (h * p + f) * (p * z);
    }
  }

  // ------------------------------------------------------------ String(n)

  /** A whole part as `String(n)` prints it: without leading zeros, or
      "0" when none are left. */
  function Head(a: string): (h: string)
    ensures h != []
  {
    var w := DropLeadingZeros(a);
    if w == "" then "0" else w
  }

  /** A whole part and a fraction joined the way `String(n)` joins them:
      a point only before a non-empty fraction. */
  function Joined(h: string, f: string): string {
    h + (if f == "" then "" else "." + f)
  }

  /** The digits of a decimal literal lie on both sides of its point. */
  lemma LiteralParts(l: string)
    requires IsDecimalLiteral(l)
    ensures var k := DotIndex(l);
      && AllDigits(l[..k])
      && (k == |l| ==> Digits(l) == l[..k] && Places(l) == 0)
      && (k < |l| ==> AllDigits(l[k + 1..]) && Digits(l) == l[..k] + l[k + 1..] && Places(l) == |l[k + 1..]|)
      && AllDigits(Digits(l))
  {
    var k := DotIndex(l);
    var a := l[..k];
    forall i | 0 <= i < |a| ensures IsDigit(a[i]) {
      assert a[i] == l[i] && l[i] != '.';
    }
    if k < |l| {
      var g := l[k + 1..];
      forall i | 0 <= i < |g| ensures IsDigit(g[i]) {
        assert g[i] == l[k + 1 + i];
        assert l[k] == '.' && k < k + 1 + i;
      }
      var d := a + g;
      forall i | 0 <= i < |d| ensures IsDigit(d[i]) {
        if i < |a| {
          assert d[i] == a[i];
        } else {
          assert d[i] == g[i - |a|];
        }
      }
    } else {
      assert a == l;
    }
  }

  /** `String(n)` splits a literal into a whole part and a fraction. */
  lemma NumberTextJoined(l: string)
    ensures var k := DotIndex(l);
      NumberText(l) == Joined(Head(l[..k]), DropTrailingZeros(if k < |l| then l[k + 1..] else ""))
  {
  }

  lemma HeadValue(a: string)
    requires AllDigits(a)
    ensures AllDigits(Head(a)) && DigitsValue(Head(a)) == DigitsValue(a)
  {
    LeadingZerosValue(a);
    if DropLeadingZeros(a) == "" {
      ZerosValue("0");
    }
  }

  /** The value of whole-part digits followed by fraction digits, in terms
      of what `String(n)` keeps of each. */
  lemma JoinValue(a: string, g: string)
    requires AllDigits(a) && AllDigits(g)
    ensures AllDigits(DropTrailingZeros(g)) && AllDigits(Head(a))
    ensures DigitsValue(a + g)
         == DigitsValue(Head(a)) * Pow10(|g|) + DigitsValue(DropTrailingZeros(g)) * Pow10(|g| - |DropTrailingZeros(g)|)
  {
    HeadValue(a);
    TrailingZerosValue(g);
    DigitsAppend(a, g);
  }

  /** A whole part and a fraction of digits join into a decimal literal
      whose digits are theirs and whose places are the fraction's. */
  lemma JoinedShape(h: string, f: string)
    requires h != [] && AllDigits(h) && AllDigits(f)
    ensures IsDecimalLiteral(Joined(h, f))
    ensures Digits(Joined(h, f)) == h + f && Places(Joined(h, f)) == |f|
  {
    var r := Joined(h, f);
    assert r[0] == h[0];
    if f == [] {
      assert r == h;
      assert DotIndex(r) == |r|;
    } else {
      assert r == h + "." + f;
      assert forall i :: 0 <= i < |h| ==> r[i] == h[i];
      assert forall i :: |h| < i < |r| ==> r[i] == f[i - |h| - 1];
      assert r[|h|] == '.';
      assert DotIndex(r) == |h|;
      assert r[..|h|] == h && r[|h| + 1..] == f;
    }
  }

  /** `String(n)` prints a decimal literal that denotes the same number. */
  lemma NumberTextSameNumber(l: string)
    requires IsDecimalLiteral(l)
    ensures IsDecimalLiteral(NumberText(l))
    ensures SameNumber(l, NumberText(l))
  {
    var a, g := WholeAndFraction(l);
    NumberTextJoined(l);
    ScaleOfParts(a, g);
    JoinedShape(Head(a), DropTrailingZeros(g));
  }

  /** A literal's whole-part digits `a` and fraction digits `g`: its
      digits are `a + g` and it has `|g|` places. */
  lemma WholeAndFraction(l: string) returns (a: string, g: string)
    requires IsDecimalLiteral(l)
    ensures var k := DotIndex(l);
      && a == l[..k] && g == (if k < |l| then l[k + 1..] else "")
      && AllDigits(a) && AllDigits(g)
      && Digits(l) == a + g && Places(l) == |g|
  {
    var k := DotIndex(l);
    LiteralParts(l);
    a := l[..k];
    g := if k < |l| then l[k + 1..] else "";
    if k == |l| {
      assert a + g == a;
    }
  }

  /** Whole-part digits then fraction digits, against what `String(n)`
      keeps of them: the values agree once both are scaled to the same
      number of places. */
  lemma ScaleOfParts(a: string, g: string)
    requires AllDigits(a) && AllDigits(g)
    ensures var h, f := Head(a), DropTrailingZeros(g);
      && AllDigits(h) && AllDigits(f) && AllDigits(a + g) && AllDigits(h + f)
      && DigitsValue(a + g) * Pow10(|f|) == DigitsValue(h + f) * Pow10(|g|)
  {
    var h, f := Head(a), DropTrailingZeros(g);
    JoinValue(a, g);
    DigitsAppend(h, f);
    DigitsAppend(a, g);
    var z: nat := |g| - |f|;
    Pow10Add(|f|, z);
    var vh: int, vf: int := DigitsValue(h), DigitsValue(f);
    var p: int, pz: int, pg: int := Pow10(|f|), Pow10(z), Pow10(|g|);
    var v: int, w: int := DigitsValue(a + g), DigitsValue(h + f);
    Rescale(vh, vf, p, pz, v, w, pg);
  }

  // ------------------------------------------------------------ truthiness

  lemma {:induction false} NonZeroValue(s: string)
    requires AllDigits(s)
    ensures DigitsValue(s) != 0 <==> HasNonZeroDigit(s)
    decreases |s|
  {
    if s != [] {
      var p := s[..|s| - 1];
      NonZeroValue(p);
      if HasNonZeroDigit(p) {
        var i :| 0 <= i < |p| && '1' <= p[i] <= '9';
        assert s[i] == p[i];
      }
      if HasNonZeroDigit(s) && !('1' <= s[|s| - 1] <= '9') {
        var i :| 0 <= i < |s| && '1' <= s[i] <= '9';
        assert p[i] == s[i];
      }
    }
  }

  /** Leaving out the point shifts the characters after it down by one. */
  lemma DigitsAround(l: string)
    requires DotIndex(l) < |l|
    ensures var k, d := DotIndex(l), Digits(l);
      && |d| == |l| - 1
      && (forall i :: 0 <= i < k ==> d[i] == l[i])
      && (forall i :: k <= i < |d| ==> d[i] == l[i + 1])
  {
    var k := DotIndex(l);
    var front, back := l[..k], l[k + 1..];
    assert Digits(l) == front + back;
    assert forall i :: k <= i < |l| - 1 ==> (front + back)[i] == back[i - k] == l[i + 1];
  }

  /** The point is not a non-zero digit. */
  lemma DigitsNonZero(l: string)
    ensures HasNonZeroDigit(Digits(l)) <==> HasNonZeroDigit(l)
  {
    var k := DotIndex(l);
    if k < |l| {
      var d := Digits(l);
      DigitsAround(l);
      if HasNonZeroDigit(l) {
        var i :| 0 <= i < |l| && '1' <= l[i] <= '9';
        if i < k {
          assert d[i] == l[i];
        } else {
          assert d[i - 1] == l[i];
        }
      }
      if HasNonZeroDigit(d) {
        var i :| 0 <= i < |d| && '1' <= d[i] <= '9';
        if i < k {
          assert l[i] == d[i];
        } else {
          assert l[i + 1] == d[i];
        }
      }
    }
  }

  /** Literals that denote the same number are both zero or both not. */
  lemma SameNumberTruthy(a: string, b: string)
    requires IsDecimalLiteral(a) && IsDecimalLiteral(b) && SameNumber(a, b)
    ensures Truthy(Num(Decimal(a))) <==> Truthy(Num(Decimal(b)))
  {
    LiteralParts(a);
    LiteralParts(b);
    NonZeroValue(Digits(a));
    NonZeroValue(Digits(b));
    DigitsNonZero(a);
    DigitsNonZero(b);
    var x: int, y: int := Magnitude(a), Magnitude(b);
    var p: int, q: int := Pow10(Places(a)), Pow10(Places(b));
    ZeroProduct(x, y, p, q);
  }

  lemma ZeroProduct(x: int, y: int, p: int, q: int)
    requires x >= 0 && y >= 0 && p >= 1 && q >= 1 && x * q == y * p
    ensures x == 0 <==> y == 0
  {
    if x != 0 {
      assert x * q >= 1 * q;
    }
    if y != 0 {
      assert y * p >= 1 * p;
    }
  }

  // ------------------------------------------------------------ a value cell

  /** A decimal literal is read back in full by the numeric coercion. */
  lemma CoerceLiteral(t: string)
    requires IsDecimalLiteral(t)
    ensures Coerce(t) == Num(Decimal(t))
  {
    assert IsNumericText(t);
    assert ',' !in t;
    var p := NumeralPrefix(t);
    assert p == t;
    var i :| 0 <= i < |t| && IsDigit(t[i]);
    assert HasDigit(t);
  }

  lemma LiteralNoSpace(t: string)
    requires IsDecimalLiteral(t)
    ensures NoSpace(t)
  {
  }

  /** A numeric value cell becomes the text `String` prints for it. */
  lemma NumericCellText(key: Value, l: string)
    ensures ValueText(CellAt([key, Num(Decimal(l))], 1)) == NumberText(l)
  {
  }

  /** A numeric value cell comes back from the cleaning as the number
      `String` prints for it, equally truthy; that number is the cell's own
      (`NumberTextSameNumber`). */
  lemma NumericCell(key: Value, l: string)
    requires IsDecimalLiteral(l)
    ensures RowValue([key, Num(Decimal(l))]) == Num(Decimal(NumberText(l)))
    ensures Truthy(RowValue([key, Num(Decimal(l))])) <==> Truthy(Num(Decimal(l)))
  {
    var t := NumberText(l);
    NumberTextSameNumber(l);
    NumericCellText(key, l);
    LiteralNoSpace(t);
    CleanValueOfWord(t);
    CoerceLiteral(t);
    assert RowValue([key, Num(Decimal(l))]) == Coerce(CleanValue(t));
    SameNumberTruthy(l, t);
  }
}

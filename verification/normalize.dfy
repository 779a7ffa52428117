/** Label and value cleaning, the syntactic numeric test and the row-validity
    filter applied to every row of the PERFORMANCE sheet
    (src/index.cjs, lines 12 and 151-175). */
module Normalize {
  import opened JsValue
  import opened Strings

  /** The `i`-th cell of a row, as array destructuring reads it: a cell past
      the end of the row is `undefined`. */
  function CellAt(row: seq<Value>, i: nat): Value {
    if i < |row| then row[i] else Undefined
  }

  /** `String(cell || "")`: how a label cell becomes text; every falsy cell,
      the number 0 included, becomes the empty string. */
  function LabelText(cell: Value): (r: string)
    ensures r == [] <==> !Truthy(cell)
    ensures cell.Str? ==> r == cell.s
  {
    if Truthy(cell) then JsString(cell) else ""
  }

  /** `String(cell ?? "")`: how a value cell becomes text; only `undefined`
      and `null` become the empty string. */
  function ValueText(cell: Value): (r: string)
    ensures r == [] <==> cell.Undefined? || cell.Null? || cell == Str([])
    ensures cell.Str? ==> r == cell.s
  {
    if cell.Undefined? || cell.Null? then "" else JsString(cell)
  }

  /** A label as the pipeline compares it: trimmed, lower-cased, and every
      white-space run replaced by one '_'. */
  function CleanKey(s: string): (k: string)
    ensures NoSpace(k)
    ensures forall i :: 0 <= i < |k| ==> !IsUpper(k[i])
    ensures k == [] <==> AllSpace(s)
  {
    var t := Lower(Trim(s));
    ReplaceRunsShape(t, '_');
    ReplaceRuns(t, '_')
  }

  /** A single word is only lower-cased. */
  lemma {:induction false} CleanKeyOfWord(s: string)
    requires NoSpace(s)
    ensures CleanKey(s) == Lower(s)
  {
    TrimKeeps(s);
    ReplaceRunsKeeps(Lower(s), '_');
  }

  /** White space before and after a label does not change its key. */
  lemma CleanKeyTrims(w1: string, x: string, w2: string)
    requires AllSpace(w1) && AllSpace(w2)
    requires x != [] && NoEdgeSpace(x)
    ensures CleanKey(w1 + x + w2) == CleanKey(x)
  {
    TrimSurrounded(w1, x, w2);
    TrimKeeps(x);
  }

  /** Two words separated by any white-space run are joined by exactly one
      '_', each word being cleaned on its own. */
  lemma {:induction false} CleanKeyJoinsWords(a: string, w: string, b: string)
    requires a != [] && b != [] && NoEdgeSpace(a) && NoEdgeSpace(b)
    requires w != [] && AllSpace(w)
    ensures CleanKey(a + w + b) == CleanKey(a) + "_" + CleanKey(b)
  {
    var x := a + w + b;
    assert x[0] == a[0] && x[|x| - 1] == b[|b| - 1];
    TrimKeeps(x);
    TrimKeeps(a);
    TrimKeeps(b);
    LowerAppend(a + w, b);
    LowerAppend(a, w);
    ReplaceRunsSplit(Lower(a), Lower(w), Lower(b), '_');
  }

  /** A cleaned value: trimmed, with every inner white-space run collapsed to
      one space. */
  function CleanValue(s: string): (v: string)
    ensures OnlySpaceIs(v, ' ') && NoAdjacentSpaces(v) && NoEdgeSpace(v)
    ensures v == [] <==> AllSpace(s)
  {
    var t := Trim(s);
    ReplaceRunsShape(t, ' ');
    ReplaceRuns(t, ' ')
  }

  /** A value without white space is kept as it is: no case change, no
      other rewriting. */
  lemma CleanValueOfWord(s: string)
    requires NoSpace(s)
    ensures CleanValue(s) == s
  {
    TrimKeeps(s);
    ReplaceRunsKeeps(s, ' ');
  }

  /** White space before and after a value does not change it. */
  lemma CleanValueTrims(w1: string, x: string, w2: string)
    requires AllSpace(w1) && AllSpace(w2)
    requires x != [] && NoEdgeSpace(x)
    ensures CleanValue(w1 + x + w2) == CleanValue(x)
  {
    TrimSurrounded(w1, x, w2);
    TrimKeeps(x);
  }

  /** Two pieces of text separated by any white-space run are joined by
      exactly one space. */
  lemma {:induction false} CleanValueJoins(a: string, w: string, b: string)
    requires a != [] && b != [] && NoEdgeSpace(a) && NoEdgeSpace(b)
    requires w != [] && AllSpace(w)
    ensures CleanValue(a + w + b) == CleanValue(a) + " " + CleanValue(b)
  {
    var x := a + w + b;
    assert x[0] == a[0] && x[|x| - 1] == b[|b| - 1];
    TrimKeeps(x);
    TrimKeeps(a);
    TrimKeeps(b);
    ReplaceRunsSplit(a, w, b, ' ');
  }

  predicate IsNumeralChar(c: char) {
    IsDigit(c) || c == ',' || c == '.'
  }

  /** `regexNumber = /^[0-9,.]+$/`: one or more digits, commas or dots, and
      nothing else. Any number of commas and dots is admitted. */
  predicate IsNumericText(s: string) {
    |s| > 0 && forall i :: 0 <= i < |s| ==> IsNumeralChar(s[i])
  }

  /** `s.replaceAll(",", "")`. */
  function StripCommas(s: string): (t: string)
    ensures ',' !in t
    ensures ',' !in s ==> t == s
  {
    ReplaceAll(s, ',', "")
  }

  /** The longest prefix of `t` that holds at most one '.': the part of a
      comma-free numeral that `parseFloat` reads. */
  function NumeralPrefix(t: string): (p: string)
    ensures |p| <= |t| && p == t[..|p|]
    ensures forall i, j :: 0 <= i < j < |p| && p[i] == '.' ==> p[j] != '.'
    ensures |p| < |t| ==> t[|p|] == '.' && '.' in p
  {
    var k := DotIndex(t);
    if k == |t| then t
    else
      var rest := t[k + 1..];
      var m := DotIndex(rest);
      assert forall i :: k + 1 <= i < k + 1 + m ==> t[i] == rest[i - (k + 1)];
      t[..k + 1 + m]
  }

  predicate HasDigit(s: string) {
    exists i :: 0 <= i < |s| && IsDigit(s[i])
  }

  /** `parseFloat` on a string of digits and dots: the longest prefix with
      at most one '.' is read, and it denotes a number only when it holds a
      digit (so ".", "" and "..5" are `NaN`). */
  function ParseFloat(t: string): (n: Number)
    requires forall i :: 0 <= i < |t| ==> IsDigit(t[i]) || t[i] == '.'
  {
    var p := NumeralPrefix(t);
    if HasDigit(p) then Decimal(p) else NaN
  }

  /** The numeric coercion of a cleaned value: a numeral (by `regexNumber`)
      becomes the number `parseFloat` reads once commas are removed; any other
      text stays text. */
  function Coerce(v: string): (r: Value)
    ensures r.Num? <==> IsNumericText(v)
    ensures r.Str? <==> !IsNumericText(v)
    ensures r.Str? ==> r.s == v
  {
    if IsNumericText(v) then
      var t := StripCommas(v);
      assert forall i :: 0 <= i < |t| ==> IsDigit(t[i]) || t[i] == '.' by {
        StripCommasKeepsNumerals(v);
      }
      Num(ParseFloat(t))
    else Str(v)
  }

  lemma {:induction false} StripCommasKeepsNumerals(v: string)
    requires forall i :: 0 <= i < |v| ==> IsNumeralChar(v[i])
    ensures var t := StripCommas(v); forall i :: 0 <= i < |t| ==> IsDigit(t[i]) || t[i] == '.'
  {
    if v != [] {
      StripCommasKeepsNumerals(v[1..]);
      assert StripCommas(v) == (if v[0] == ',' then "" else [v[0]]) + StripCommas(v[1..]);
    }
  }

  /** A grouped numeral with at most one decimal point is read in full: its
      value is the numeral with the grouping commas removed. */
  lemma {:induction false} CoerceGroupedNumeral(v: string)
    requires IsNumericText(v) && HasDigit(v)
    requires multiset(v)['.'] <= 1
    ensures Coerce(v) == Num(Decimal(StripCommas(v)))
  {
    var t := StripCommas(v);
    StripCommasKeeps(v);
    StripCommasKeepsNumerals(v);
    var p := NumeralPrefix(t);
    PrefixStopsAtSecondDot(t);
    assert p == t;
    var i :| 0 <= i < |v| && IsDigit(v[i]);
    assert v[i] in multiset(t);
  }

  /** When `NumeralPrefix` stops early, the text holds two dots. */
  lemma PrefixStopsAtSecondDot(t: string)
    ensures |NumeralPrefix(t)| < |t| ==> multiset(t)['.'] >= 2
  {
    var p := NumeralPrefix(t);
    if |p| < |t| {
      assert t == p + t[|p|..];
      assert t[|p|..][0] == '.';
      assert multiset(t)['.'] == multiset(p)['.'] + multiset(t[|p|..])['.'];
    }
  }

  /** Removing commas keeps every other character, as often as it occurs. */
  lemma {:induction false} StripCommasKeeps(v: string)
    ensures forall c :: c != ',' ==> multiset(StripCommas(v))[c] == multiset(v)[c]
  {
    if v != [] {
      StripCommasKeeps(v[1..]);
      var h := if v[0] == ',' then "" else [v[0]];
      assert StripCommas(v) == h + StripCommas(v[1..]);
      assert v == [v[0]] + v[1..];
    }
  }

  // ------------------------------------------------------------ one row

  /** The cleaned label of a PERFORMANCE row (its first cell). */
  function RowLabel(row: seq<Value>): string {
    CleanKey(LabelText(CellAt(row, 0)))
  }

  /** The cleaned and coerced value of a PERFORMANCE row (its second cell). */
  function RowValue(row: seq<Value>): Value {
    Coerce(CleanValue(ValueText(CellAt(row, 1))))
  }

  /** `key && (value || typeof value === "number")`: a row is kept when its
      label is not empty and its value is truthy or a number. */
  predicate IsValidRow(key: string, value: Value) {
    key != "" && (Truthy(value) || value.Num?)
  }

  /** A row is kept exactly when its label is not empty and its value text
      is not blank: a numeral, zero and NaN included, is never rejected on
      value grounds, and the empty text is never a numeral. */
  lemma RowValidity(key: string, v: string)
    ensures IsValidRow(key, Coerce(CleanValue(v))) <==> key != "" && !AllSpace(v)
    ensures Coerce(CleanValue(v)).Num? ==> (IsValidRow(key, Coerce(CleanValue(v))) <==> key != "")
  {
  }

  /** The label of a row is empty exactly when its first cell is falsy or
      prints as white space only. */
  lemma RowLabelEmpty(row: seq<Value>)
    ensures RowLabel(row) == "" <==> !Truthy(CellAt(row, 0)) || AllSpace(JsString(CellAt(row, 0)))
  {
  }

  /** `||` and `??` treat the number 0 differently: as a label it is dropped,
      as a value it is the numeral "0", which is kept. */
  lemma ZeroCell()
    ensures LabelText(Num(Decimal("0"))) == ""
    ensures Coerce(CleanValue(ValueText(Num(Decimal("0"))))) == Num(Decimal("0"))
  {
    var z := Num(Decimal("0"));
    assert !Truthy(z);
    assert DotIndex("0") == 1;
    assert DropLeadingZeros("0"[..1]) == "";
    assert ValueText(z) == "0";
    assert NoEdgeSpace("0") && NoSpace("0");
    TrimKeeps("0");
    ReplaceRunsKeeps("0", ' ');
    assert CleanValue("0") == "0";
    assert IsNumericText("0");
    assert StripCommas("0") == "0";
    assert NumeralPrefix("0") == "0";
    assert HasDigit("0");
  }
}

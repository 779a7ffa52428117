/** The company-size range mapper for the TOP DEMOGRAPHICS sheet
    (src/index.cjs, lines 290-316): a row whose first cell reads "Company
    size" stores its third cell, raw, under a field named after the size
    range in its second cell. */
module Demographics {
  import opened JsValue
  import opened Strings
  import opened Normalize

  const Prefix: string := "employees_"

  /** The second cell's label reduced to a bare range token: cleaned like any
      label, '-' spelled "_to_", every non-word character dropped, and the
      first "_employees" removed. */
  function RangeToken(cell: Value): string {
    var k := ReplaceAll(CleanKey(LabelText(cell)), '-', "_to_");
    ReplaceFirst(KeepWordChars(k), "_employees", "")
  }

  /** A range token is made of word characters only. */
  lemma RangeTokenWordChars(cell: Value)
    ensures var r := RangeToken(cell); forall i :: 0 <= i < |r| ==> IsWordChar(r[i])
  {
    var k := ReplaceAll(CleanKey(LabelText(cell)), '-', "_to_");
    DropKeepsWordChars(KeepWordChars(k));
  }

  /** Removing "_employees" from word characters leaves word characters. */
  lemma DropKeepsWordChars(w: string)
    requires forall i :: 0 <= i < |w| ==> IsWordChar(w[i])
    ensures var r := ReplaceFirst(w, "_employees", "");
      forall i :: 0 <= i < |r| ==> IsWordChar(r[i])
  {
    var r := ReplaceFirst(w, "_employees", "");
    if IndexOf(w, "_employees") >= 0 {
      var k :| OccursAt(w, "_employees", k) && r == w[..k] + "" + w[k + |"_employees"|..];
      assert forall i :: 0 <= i < |r| ==> r[i] == w[if i < k then i else i + |"_employees"|];
    }
  }

  /** The field a range token is stored under: `employees_` and the token,
      with `_or_more` appended when that name ends in "10001". */
  function RangeKey(token: string): (k: string)
    ensures |Prefix| + |token| <= |k| && k[..|Prefix| + |token|] == Prefix + token
    ensures EndsWith(Prefix + token, "10001") <==> |k| > |Prefix| + |token|
  {
    var key := Prefix + token;
    if EndsWith(key, "10001") then key + "_or_more" else key
  }

  /** A row whose first cell, cleaned like a label, reads "company_size". */
  predicate IsSizeRow(row: seq<Value>) {
    CleanKey(LabelText(CellAt(row, 0))) == "company_size"
  }

  /** The field a size row fills. */
  function SizeField(row: seq<Value>): string {
    RangeKey(RangeToken(CellAt(row, 1)))
  }

  /** One TOP DEMOGRAPHICS row: only a "company size" row changes the
      record, storing its third cell as it is (not cleaned). */
  function Step(rec: WorkingRecord, row: seq<Value>): WorkingRecord {
    if IsSizeRow(row) then
      rec[SizeField(row) := CellAt(row, 2)]
    else rec
  }

  /** The whole sheet, row by row, in order. */
  function Fold(rec: WorkingRecord, rows: seq<seq<Value>>): WorkingRecord
    decreases |rows|
  {
    if rows == [] then rec else Fold(Step(rec, rows[0]), rows[1..])
  }

  /** The characters a size label is written with. */
  predicate IsRangeChar(c: char) {
    IsDigit(c) || c == ',' || c == '-' || c == '+'
  }

  /** A size label `w + " employees"` (w made of digits, ',', '-' and '+')
      reduces to `w` with '-' spelled "_to_" and ',' and '+' dropped. */
  lemma RangeTokenOf(w: string)
    requires w != [] && forall i :: 0 <= i < |w| ==> IsRangeChar(w[i])
    ensures RangeToken(Str(w + " employees")) == KeepWordChars(ReplaceAll(w, '-', "_to_"))
  {
    var e := Employees;
    EmployeesSpelled();
    assert w + ([' '] + e) == w + [' '] + e;
    EmployeesIsWord();
    TokenOfWord(w, e);
  }

  const Employees: string := "employees"

  /** The two spellings of the unit in a size label. */
  lemma EmployeesSpelled()
    ensures " employees" == [' '] + Employees
    ensures "_employees" == ['_'] + Employees
  {
  }

  /** The word "employees" is lower-case letters starting with 'e'. */
  lemma EmployeesIsWord()
    ensures IsTrailingWord(Employees)
  {
    var e := Employees;
    forall i | 0 <= i < |e| ensures 'a' <= e[i] <= 'z' {
    }
  }

  /** A lower-case word that no "_to_" nor digit can start. */
  predicate IsTrailingWord(e: string) {
    && e != []
    && (forall i :: 0 <= i < |e| ==> 'a' <= e[i] <= 'z')
    && e[0] != 't' && e[0] != 'o'
  }

  /** `RangeTokenOf` for any trailing word `e` in place of "employees". */
  lemma TokenOfWord(w: string, e: string)
    requires w != [] && forall i :: 0 <= i < |w| ==> IsRangeChar(w[i])
    requires IsTrailingWord(e)
    ensures var t := ReplaceAll(CleanKey(LabelText(Str(w + [' '] + e))), '-', "_to_");
            ReplaceFirst(KeepWordChars(t), ['_'] + e, "") == KeepWordChars(ReplaceAll(w, '-', "_to_"))
  {
    var pat := ['_'] + e;
    var t := KeepWordChars(ReplaceAll(w, '-', "_to_"));
    var k := CleanKey(LabelText(Str(w + [' '] + e)));
    CleanSizeLabel(w, e);
    assert k == w + pat;
    SuffixSurvives(w, e);
    assert KeepWordChars(ReplaceAll(k, '-', "_to_")) == t + pat;
    TokenLetters(w, e[0]);
    DropSuffix(t, e);
    assert ReplaceFirst(t + pat, pat, "") == t;
  }

  /** Step one: the cleaned label is the range, '_', and the word. */
  lemma CleanSizeLabel(w: string, e: string)
    requires w != [] && forall i :: 0 <= i < |w| ==> IsRangeChar(w[i])
    requires IsTrailingWord(e)
    ensures CleanKey(LabelText(Str(w + [' '] + e))) == w + (['_'] + e)
  {
    var text := w + [' '] + e;
    assert LabelText(Str(text)) == text;
    LowerWord(e);
    WordsJoin(w, [' '], e);
  }

  /** Step two: a suffix of word characters without '-' passes through the
      '-' rewrite and the character filter unchanged. */
  lemma SuffixSurvives(w: string, e: string)
    requires IsTrailingWord(e)
    ensures var pat := ['_'] + e;
      KeepWordChars(ReplaceAll(w + pat, '-', "_to_"))
         == KeepWordChars(ReplaceAll(w, '-', "_to_")) + pat
  {
    var pat := ['_'] + e;
    forall i | 0 <= i < |pat| ensures IsWordChar(pat[i]) && pat[i] != '-' {
      if i > 0 { assert pat[i] == e[i - 1]; }
    }
    ReplaceAllAppend(w, pat, '-', "_to_");
    KeepWordCharsAppend(ReplaceAll(w, '-', "_to_"), pat);
  }

  /** Step three: the first "_" + word is the one at the end, when the
      word's first letter does not occur before it. */
  lemma DropSuffix(t: string, e: string)
    requires IsTrailingWord(e) && e[0] !in t
    ensures ReplaceFirst(t + (['_'] + e), ['_'] + e, "") == t
  {
    var pat := ['_'] + e;
    assert pat[1] == e[0];
    ReplaceFirstAtEnd(t, pat, "");
    assert t + "" == t;
  }

  /** The range token of a size label holds no lower-case letter other than
      't' and 'o'. */
  lemma TokenLetters(w: string, c: char)
    requires forall i :: 0 <= i < |w| ==> IsRangeChar(w[i])
    requires 'a' <= c <= 'z' && c != 't' && c != 'o'
    ensures c !in KeepWordChars(ReplaceAll(w, '-', "_to_"))
  {
    ReplaceAllKeeps(w, c);
    KeepWordCharsSubset(ReplaceAll(w, '-', "_to_"), c);
  }

  /** A lower-case word holds neither white space nor capitals. */
  lemma LowerWord(e: string)
    requires IsTrailingWord(e)
    ensures NoSpace(e) && NoEdgeSpace(e) && NoUpper(e)
  {
  }

  /** No character is upper-case. */
  predicate NoUpper(s: string) {
    forall i :: 0 <= i < |s| ==> !IsUpper(s[i])
  }

  /** Two lower-case words separated by white space are joined by '_'. */
  lemma WordsJoin(a: string, sp: string, b: string)
    requires a != [] && NoSpace(a) && NoEdgeSpace(a) && NoUpper(a)
    requires b != [] && NoSpace(b) && NoEdgeSpace(b) && NoUpper(b)
    requires sp != [] && AllSpace(sp)
    ensures CleanKey(a + sp + b) == a + "_" + b
  {
    CleanKeyJoinsWords(a, sp, b);
    CleanKeyOfWord(a);
    CleanKeyOfWord(b);
    LowerKeeps(a);
    LowerKeeps(b);
  }

  /** `ReplaceAll(w, '-', "_to_")` on a size label holds only digits,
      ',', '+', '_', 't' and 'o'. */
  lemma {:induction false} ReplaceAllKeeps(w: string, c: char)
    requires forall i :: 0 <= i < |w| ==> IsRangeChar(w[i])
    requires 'a' <= c <= 'z' && c != 't' && c != 'o'
    ensures c !in ReplaceAll(w, '-', "_to_")
  {
    if w != [] {
      ReplaceAllKeeps(w[1..], c);
    }
  }

  /** Dropping characters adds none. */
  lemma {:induction false} KeepWordCharsSubset(x: string, c: char)
    requires c !in x
    ensures c !in KeepWordChars(x)
  {
    if x != [] {
      KeepWordCharsSubset(x[1..], c);
    }
  }

  /** An amount as LinkedIn writes it in a size label: a digit followed by
      digits and thousands commas. */
  predicate IsAmount(s: string) {
    s != [] && IsDigit(s[0]) && forall i :: 0 <= i < |s| ==> IsDigit(s[i]) || s[i] == ','
  }

  /** An amount with its commas dropped. */
  lemma AmountDigits(s: string)
    requires IsAmount(s)
    ensures '-' !in s && ReplaceAll(s, '-', "_to_") == s
    ensures KeepWordChars(s) != [] && KeepWordChars(s)[0] == s[0]
    ensures forall i :: 0 <= i < |KeepWordChars(s)| ==> IsDigit(KeepWordChars(s)[i])
  {
    KeepWordCharsAppend([s[0]], s[1..]);
    assert s == [s[0]] + s[1..];
    AmountKeepsDigits(s);
  }

  lemma {:induction false} AmountKeepsDigits(s: string)
    requires forall i :: 0 <= i < |s| ==> IsDigit(s[i]) || s[i] == ','
    ensures forall i :: 0 <= i < |KeepWordChars(s)| ==> IsDigit(KeepWordChars(s)[i])
  {
    if s != [] {
      AmountKeepsDigits(s[1..]);
    }
  }

  /** A closed range `lo-hi employees` becomes `lo_to_hi` with the commas
      dropped. */
  lemma ClosedBucket(lo: string, hi: string)
    requires IsAmount(lo) && IsAmount(hi)
    ensures RangeToken(Str(lo + "-" + hi + " employees"))
         == KeepWordChars(lo) + "_to_" + KeepWordChars(hi)
  {
    var w := lo + "-" + hi;
    assert forall i :: 0 <= i < |w| ==> IsRangeChar(w[i]);
    RangeTokenOf(w);
    ClosedToken(lo, hi);
  }

  /** The field of a closed range gains `_or_more` exactly when the upper
      bound's digits end in "10001". */
  lemma ClosedKey(a: string, b: string)
    requires b != [] && forall i :: 0 <= i < |b| ==> IsDigit(b[i])
    ensures RangeKey(a + "_to_" + b)
         == Prefix + (a + "_to_" + b) + (if EndsWith(b, "10001") then "_or_more" else "")
  {
    ClosedKeyEnds(a, b);
  }

  /** The '-' rewrite and the filter applied to `lo-hi`. */
  lemma ClosedToken(lo: string, hi: string)
    requires IsAmount(lo) && IsAmount(hi)
    ensures KeepWordChars(ReplaceAll(lo + "-" + hi, '-', "_to_"))
         == KeepWordChars(lo) + "_to_" + KeepWordChars(hi)
  {
    AmountDigits(lo);
    AmountDigits(hi);
    ReplaceAllAppend(lo + "-", hi, '-', "_to_");
    ReplaceAllAppend(lo, "-", '-', "_to_");
    assert ReplaceAll("-", '-', "_to_") == "_to_";
    KeepWordCharsAppend(lo + "_to_", hi);
    KeepWordCharsAppend(lo, "_to_");
    assert KeepWordChars("_to_") == "_to_";
  }

  /** The key of a closed range ends in "10001" only through its upper
      bound: "_to_" holds no digit. */
  lemma ClosedKeyEnds(a: string, b: string)
    requires b != [] && forall i :: 0 <= i < |b| ==> IsDigit(b[i])
    ensures EndsWith(Prefix + (a + "_to_" + b), "10001") <==> EndsWith(b, "10001")
  {
    var k := Prefix + (a + "_to_" + b);
    assert k == (Prefix + a + "_to_") + b;
    if |b| >= 5 {
      assert k[|k| - 5..] == b[|b| - 5..];
    } else {
      assert k[|k| - |b| - 1] == '_';
      assert k[|k| - 5..][4 - |b|] == '_';
    }
  }

  /** An open range `lo+ employees` becomes `lo` with the commas dropped. */
  lemma OpenBucket(lo: string)
    requires IsAmount(lo)
    ensures RangeToken(Str(lo + "+ employees")) == KeepWordChars(lo)
  {
    var w := lo + "+";
    assert forall i :: 0 <= i < |w| ==> IsRangeChar(w[i]);
    assert lo + "+ employees" == w + " employees";
    RangeTokenOf(w);
    OpenToken(lo);
  }

  /** The field of an open range gains `_or_more` exactly when its digits
      end in "10001". */
  lemma OpenKey(t: string)
    requires t != [] && forall i :: 0 <= i < |t| ==> IsDigit(t[i])
    ensures RangeKey(t) == Prefix + t + (if EndsWith(t, "10001") then "_or_more" else "")
  {
    OpenKeyEnds(t);
  }

  /** The '-' rewrite and the filter applied to `lo+`. */
  lemma OpenToken(lo: string)
    requires IsAmount(lo)
    ensures KeepWordChars(ReplaceAll(lo + "+", '-', "_to_")) == KeepWordChars(lo)
  {
    AmountDigits(lo);
    ReplaceAllAppend(lo, "+", '-', "_to_");
    assert ReplaceAll("+", '-', "_to_") == "+";
    KeepWordCharsAppend(lo, "+");
    assert KeepWordChars("+") == [];
  }

  lemma OpenKeyEnds(t: string)
    requires t != [] && forall i :: 0 <= i < |t| ==> IsDigit(t[i])
    ensures EndsWith(Prefix + t, "10001") <==> EndsWith(t, "10001")
  {
    var k := Prefix + t;
    if |t| >= 5 {
      assert k[|k| - 5..] == t[|t| - 5..];
    } else {
      assert k[|k| - |t| - 1] == '_';
      assert k[|k| - 5..][4 - |t|] == '_';
    }
  }

  // ------------------------------------------------------------ examples

  /** "1-10 employees" (written as its pieces) fills `employees_1_to_10`. */
  lemma SmallestBucket()
    ensures RangeKey(RangeToken(Str("1" + "-" + "10" + " employees"))) == "employees_1_to_10"
  {
    var t := "1" + "_to_" + "10";
    assert Prefix + t + "" == "employees_1_to_10";
    assert !EndsWith("10", "10001");
    ClosedKey("1", "10");
    assert RangeKey(t) == "employees_1_to_10";
    SmallestToken();
  }

  /** The token of "1-10 employees". */
  lemma SmallestToken()
    ensures RangeToken(Str("1" + "-" + "10" + " employees")) == "1" + "_to_" + "10"
  {
    ClosedBucket("1", "10");
    DigitsKept("1");
    DigitsKept("10");
  }

  /** "10,001+ employees" (written as its pieces) fills
      `employees_10001_or_more`. */
  lemma LargestBucket()
    ensures RangeKey(RangeToken(Str("10,001" + "+ employees"))) == "employees_10001_or_more"
  {
    assert Prefix + "10001" + "_or_more" == "employees_10001_or_more";
    assert EndsWith("10001", "10001");
    OpenBucket("10,001");
    AmountDigits("10,001");
    OpenKey(KeepWordChars("10,001"));
    CommaDropped();
  }

  /** Digits pass the character filter unchanged. */
  lemma DigitsKept(s: string)
    requires forall i :: 0 <= i < |s| ==> IsDigit(s[i])
    ensures KeepWordChars(s) == s
  {
  }

  lemma CommaDropped()
    ensures KeepWordChars("10,001") == "10001"
  {
    DigitGroups("10", "001");
    assert "10,001" == "10" + "," + "001";
    assert "10" + "001" == "10001";
  }

  /** A thousands comma between digit groups is dropped. */
  lemma DigitGroups(a: string, b: string)
    requires forall i :: 0 <= i < |a| ==> IsDigit(a[i])
    requires forall i :: 0 <= i < |b| ==> IsDigit(b[i])
    ensures KeepWordChars(a + "," + b) == a + b
  {
    assert KeepWordChars(a + ",") == a by {
      KeepWordCharsAppend(a, ",");
      assert KeepWordChars(",") == [];
      DigitsKept(a);
    }
    assert KeepWordChars(b) == b by {
      DigitsKept(b);
    }
    KeepWordCharsAppend(a + ",", b);
  }

  // ------------------------------------------------------------ the sheet

  /** Whether a field name starts with `employees_`. */
  predicate IsSizeKey(k: string) {
    |Prefix| <= |k| && k[..|Prefix|] == Prefix
  }

  /** Every size row writes a `employees_` field. */
  lemma SizeFieldIsSizeKey(row: seq<Value>)
    ensures IsSizeKey(SizeField(row))
  {
    var t := RangeToken(CellAt(row, 1));
    var k := RangeKey(t);
    assert k[..|Prefix| + |t|][..|Prefix|] == (Prefix + t)[..|Prefix|];
  }

  /** No row of `rows` is a size row writing field `k`. */
  predicate Untouched(rows: seq<seq<Value>>, k: string) {
    forall i :: 0 <= i < |rows| ==> !(IsSizeRow(rows[i]) && SizeField(rows[i]) == k)
  }

  /** A field no size row writes keeps its presence and its value. */
  lemma {:induction false} FoldUntouched(rec: WorkingRecord, rows: seq<seq<Value>>, k: string)
    requires Untouched(rows, k)
    ensures k in Fold(rec, rows) <==> k in rec
    ensures k in rec ==> Fold(rec, rows)[k] == rec[k]
    decreases |rows|
  {
    if rows != [] {
      assert !(IsSizeRow(rows[0]) && SizeField(rows[0]) == k);
      assert Untouched(rows[1..], k) by {
        forall i | 0 <= i < |rows[1..]| ensures !(IsSizeRow(rows[1..][i]) && SizeField(rows[1..][i]) == k) {
          assert rows[1..][i] == rows[i + 1];
        }
      }
      FoldUntouched(Step(rec, rows[0]), rows[1..], k);
    }
  }

  /** Fields outside the `employees_` family (the date, the counters, the
      top slots) pass through the sheet unchanged. */
  lemma OtherFieldsKept(rec: WorkingRecord, rows: seq<seq<Value>>, k: string)
    requires !IsSizeKey(k)
    ensures k in Fold(rec, rows) <==> k in rec
    ensures k in rec ==> Fold(rec, rows)[k] == rec[k]
  {
    forall i | 0 <= i < |rows| ensures !(IsSizeRow(rows[i]) && SizeField(rows[i]) == k) {
      SizeFieldIsSizeKey(rows[i]);
    }
    FoldUntouched(rec, rows, k);
  }

  /** A sheet without size rows leaves the record as it was. */
  lemma {:induction false} NoSizeRows(rec: WorkingRecord, rows: seq<seq<Value>>)
    requires forall i :: 0 <= i < |rows| ==> !IsSizeRow(rows[i])
    ensures Fold(rec, rows) == rec
    decreases |rows|
  {
    if rows != [] {
      NoSizeRows(rec, rows[1..]);
    }
  }

  /** Folding a sheet with one more row is one more step. */
  lemma {:induction false} FoldAppend(rec: WorkingRecord, rows: seq<seq<Value>>, row: seq<Value>)
    ensures Fold(rec, rows + [row]) == Step(Fold(rec, rows), row)
    decreases |rows|
  {
    if rows != [] {
      assert (rows + [row])[1..] == rows[1..] + [row];
      FoldAppend(Step(rec, rows[0]), rows[1..], row);
    }
  }

  /** The last size row for a field wins, and its third cell is stored as it
      is, without any cleaning. */
  lemma LastSizeRowWins(rec: WorkingRecord, rows: seq<seq<Value>>, row: seq<Value>)
    requires IsSizeRow(row)
    ensures SizeField(row) in Fold(rec, rows + [row])
    ensures Fold(rec, rows + [row])[SizeField(row)] == CellAt(row, 2)
  {
    FoldAppend(rec, rows, row);
  }

  /** A first cell reading two words whose lower-case forms are "company"
      and "size", separated by any white space, marks a size row. */
  lemma SizeRowLabel(a: string, sp: string, b: string, rest: seq<Value>)
    requires a != [] && NoSpace(a) && b != [] && NoSpace(b)
    requires sp != [] && AllSpace(sp)
    requires Lower(a) == "company" && Lower(b) == "size"
    ensures IsSizeRow([Str(a + sp + b)] + rest)
  {
    assert "company" + "_" + "size" == "company_size";
    var text := a + sp + b;
    assert LabelText(Str(text)) == text;
    assert NoEdgeSpace(a) && NoEdgeSpace(b);
    CleanKeyJoinsWords(a, sp, b);
    CleanKeyOfWord(a);
    CleanKeyOfWord(b);
  }

  /** "Company size", as LinkedIn writes it, marks a size row. */
  lemma CompanySizeRow(rest: seq<Value>)
    ensures IsSizeRow([Str("Company" + " " + "size")] + rest)
  {
    assert Lower("Company") == "company" && Lower("size") == "size";
    assert NoSpace("Company") && NoSpace("size") && AllSpace(" ");
    SizeRowLabel("Company", " ", "size", rest);
  }

}

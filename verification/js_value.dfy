/** The JavaScript values the normalisation pipeline handles: the cells the
    spreadsheet decoder hands over (`sheet_to_json` with `header: 1`) and the
    values stored in the working record. */
module JsValue {

  /** A JavaScript number. `Decimal(literal)` denotes the number written by a
      decimal literal made of digits and at most one '.', which is exactly the
      text `parseFloat` consumes from a comma-free numeral. */
  datatype Number = NaN | Decimal(literal: string)

  datatype Value =
    | Undefined
    | Null
    | Bool(b: bool)
    | Num(n: Number)
    | Str(s: string)

  /** The record accumulated for one document, a plain object with
      primitive values: field name to value; a missing key is a field not
      seen yet. */
  type WorkingRecord = map<string, Value>

  predicate IsDigit(c: char) {
    '0' <= c <= '9'
  }

  /** True iff the literal denotes a non-zero number (some digit is not 0). */
  predicate HasNonZeroDigit(literal: string) {
    exists i :: 0 <= i < |literal| && '1' <= literal[i] <= '9'
  }

  /** JavaScript truthiness: `undefined`, `null`, `false`, `0`, `NaN` and the
      empty string are falsy, everything else is truthy. */
  predicate Truthy(v: Value) {
    match v
    case Undefined => false
    case Null => false
    case Bool(b) => b
    case Num(NaN) => false
    case Num(Decimal(literal)) => HasNonZeroDigit(literal)
    case Str(s) => s != ""
  }

  /** Drops the leading '0' digits of a digit string. */
  function DropLeadingZeros(s: string): (r: string)
    ensures |r| <= |s| && r == s[|s| - |r|..]
    ensures r == [] || r[0] != '0'
    ensures forall i :: 0 <= i < |s| - |r| ==> s[i] == '0'
  {
    if s != [] && s[0] == '0' then DropLeadingZeros(s[1..]) else s
  }

  /** Drops the trailing '0' digits of a digit string. */
  function DropTrailingZeros(s: string): (r: string)
    ensures |r| <= |s| && r == s[..|r|]
    ensures r == [] || r[|r| - 1] != '0'
    ensures forall i :: |r| <= i < |s| ==> s[i] == '0'
  {
    if s != [] && s[|s| - 1] == '0' then DropTrailingZeros(s[..|s| - 1]) else s
  }

  /** Position of the first '.' in `s`, or `|s|` when there is none. */
  function DotIndex(s: string): (k: nat)
    ensures k <= |s|
    ensures k < |s| ==> s[k] == '.'
    ensures forall i :: 0 <= i < k ==> s[i] != '.'
  {
    if s == [] then 0
    else if s[0] == '.' then 0
    else 1 + DotIndex(s[1..])
  }

  /** Digits and at most one '.', with at least one digit: the literals a
      `Decimal` is built from. */
  predicate IsDecimalLiteral(s: string) {
    && (forall i :: 0 <= i < |s| ==> IsDigit(s[i]) || s[i] == '.')
    && (forall i, j :: 0 <= i < j < |s| && s[i] == '.' ==> s[j] != '.')
    && exists i :: 0 <= i < |s| && IsDigit(s[i])
  }

  /** The shortest decimal text of the number a literal denotes, the way
      `String(n)` prints it: no leading zeros in the whole part (but at least
      one digit), no trailing zeros in the fraction, no bare '.'. */
  function NumberText(literal: string): (r: string)
    ensures r != [] && r[0] != '.'
    ensures |r| > 1 && r[0] == '0' ==> r[1] == '.'
  {
    var k := DotIndex(literal);
    var whole := DropLeadingZeros(literal[..k]);
    var fraction := if k < |literal| then DropTrailingZeros(literal[k + 1..]) else "";
    (if whole == "" then "0" else whole) + (if fraction == "" then "" else "." + fraction)
  }

  /** `String(v)`: JavaScript's conversion of a primitive to a string. Only
      the empty string converts to the empty string, and text converts to
      itself. */
  function JsString(v: Value): (r: string)
    ensures r == [] <==> v == Str([])
    ensures v.Str? ==> r == v.s
  {
    match v
    case Undefined => "undefined"
    case Null => "null"
    case Bool(b) => if b then "true" else "false"
    case Num(NaN) => "NaN"
    case Num(Decimal(literal)) => NumberText(literal)
    case Str(s) => s
  }
}

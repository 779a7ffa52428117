/** The record assembler `formatRow` and its fixed schema `colOrder`
    (src/index.cjs, lines 51-87): the working record is projected onto 21
    fields, in schema order, each keeping a truthy value or falling back to
    the schema's default. */
module Assemble {
  import opened JsValue

  /** One property of an output object, in insertion order. */
  datatype Field = Field(key: string, value: Value)

  /** The number 0, the default of every counter and size field. */
  const Zero: Value := Num(Decimal("0"))

  /** `colOrder`: every output field with its default, in output order. */
  const ColOrder: seq<Field> := [
    Field("post_date", Null),
    Field("post_publish_time", Null),
    Field("impressions", Zero),
    Field("members_reached", Zero),
    Field("reactions", Zero),
    Field("comments", Zero),
    Field("reposts", Zero),
    Field("employees_1_to_10", Zero),
    Field("employees_51_to_200", Zero),
    Field("employees_201_to_500", Zero),
    Field("employees_501_to_1000", Zero),
    Field("employees_1001_to_5000", Zero),
    Field("employees_5001_to_10000", Zero),
    Field("employees_10001_or_more", Zero),
    Field("reactions_top_job_title", Null),
    Field("reactions_top_location", Null),
    Field("reactions_top_industry", Null),
    Field("comments_top_job_title", Null),
    Field("comments_top_location", Null),
    Field("comments_top_industry", Null),
    Field("post_url", Null)
  ]

  /** `obj[key] || fallback`: a truthy value, or else the fallback (a
      missing key reads as `undefined`, which is falsy). */
  function Pick(obj: WorkingRecord, key: string, fallback: Value): Value {
    if key in obj && Truthy(obj[key]) then obj[key] else fallback
  }

  /** The assembler loop over any schema. */
  function Project(obj: WorkingRecord, cols: seq<Field>): (r: seq<Field>)
    ensures |r| == |cols|
    ensures forall i :: 0 <= i < |r| ==> r[i].key == cols[i].key
    ensures forall i :: 0 <= i < |r| ==> r[i].value == Pick(obj, cols[i].key, cols[i].value)
  {
    if cols == [] then []
    else [Field(cols[0].key, Pick(obj, cols[0].key, cols[0].value))] + Project(obj, cols[1..])
  }

  /** `formatRow`. */
  function FormatRow(obj: WorkingRecord): (r: seq<Field>)
    ensures |r| == 21
    ensures forall i :: 0 <= i < 21 ==> r[i].key == ColOrder[i].key
    ensures forall i :: 0 <= i < 21 ==>
      (ColOrder[i].key in obj && Truthy(obj[ColOrder[i].key]) ==> r[i].value == obj[ColOrder[i].key])
    ensures forall i :: 0 <= i < 21 ==>
      (!(ColOrder[i].key in obj && Truthy(obj[ColOrder[i].key])) ==> r[i].value == ColOrder[i].value)
  {
    Project(obj, ColOrder)
  }

  /** Whether `k` is one of the schema's keys. */
  predicate InSchema(k: string) {
    exists i :: 0 <= i < |ColOrder| && ColOrder[i].key == k
  }

  /** The 21 schema keys are distinct, so the output object has exactly 21
      properties. */
  lemma SchemaKeysDistinct()
    ensures forall i, j :: 0 <= i < j < |ColOrder| ==> ColOrder[i].key != ColOrder[j].key
  {
  }

  /** Every default (0 or null) is falsy. */
  lemma DefaultsFalsy()
    ensures forall i :: 0 <= i < |ColOrder| ==> !Truthy(ColOrder[i].value)
  {
  }

  /** The object an output row denotes: assigning its fields in order, a
      later field overriding an earlier one with the same key. */
  function AsMap(r: seq<Field>): map<string, Value>
    decreases |r|
  {
    if r == [] then map[] else AsMap(r[..|r| - 1])[r[|r| - 1].key := r[|r| - 1].value]
  }

  /** With distinct keys, the object holds exactly the row's fields. */
  lemma {:induction false} AsMapOfDistinct(r: seq<Field>)
    requires forall i, j :: 0 <= i < j < |r| ==> r[i].key != r[j].key
    ensures forall k :: k in AsMap(r) <==> exists i :: 0 <= i < |r| && r[i].key == k
    ensures forall i :: 0 <= i < |r| ==> r[i].key in AsMap(r) && AsMap(r)[r[i].key] == r[i].value
    decreases |r|
  {
    if r != [] {
      var p := r[..|r| - 1];
      AsMapOfDistinct(p);
      forall k ensures k in AsMap(r) <==> exists i :: 0 <= i < |r| && r[i].key == k {
        if k in AsMap(p) {
          var i :| 0 <= i < |p| && p[i].key == k;
          assert r[i].key == k;
        }
        if exists i :: 0 <= i < |r| && r[i].key == k {
          var i :| 0 <= i < |r| && r[i].key == k;
          if i < |r| - 1 { assert p[i].key == k; }
        }
      }
      forall i | 0 <= i < |r| ensures r[i].key in AsMap(r) && AsMap(r)[r[i].key] == r[i].value {
        if i < |r| - 1 { assert p[i] == r[i]; }
      }
    }
  }

  /** Two working records give the same output row exactly when they pick
      the same value for every schema field. */
  lemma SameRow(a: WorkingRecord, b: WorkingRecord)
    ensures FormatRow(a) == FormatRow(b) <==>
      forall i :: 0 <= i < |ColOrder| ==> Pick(a, ColOrder[i].key, ColOrder[i].value) == Pick(b, ColOrder[i].key, ColOrder[i].value)
  {
    var ra, rb := FormatRow(a), FormatRow(b);
    if forall i :: 0 <= i < |ColOrder| ==> Pick(a, ColOrder[i].key, ColOrder[i].value) == Pick(b, ColOrder[i].key, ColOrder[i].value) {
      assert forall i :: 0 <= i < |ra| ==> ra[i] == rb[i];
    }
    if ra == rb {
      forall i | 0 <= i < |ColOrder| ensures Pick(a, ColOrder[i].key, ColOrder[i].value) == Pick(b, ColOrder[i].key, ColOrder[i].value) {
        assert ra[i].value == rb[i].value;
      }
    }
  }

  /** Keys outside the schema never reach the output: the `employees_11_to_50`
      field the size mapper can write, for one, is dropped here. */
  lemma IgnoresOtherKeys(obj: WorkingRecord, k: string, v: Value)
    requires !InSchema(k)
    ensures FormatRow(obj[k := v]) == FormatRow(obj)
  {
    SameRow(obj[k := v], obj);
  }

  /** `employees_11_to_50` is not a schema key. */
  lemma ElevenToFiftyDropped()
    ensures !InSchema("employees_11_to_50")
  {
    var k := "employees_11_to_50";
    forall i | 0 <= i < |ColOrder| ensures ColOrder[i].key != k {
    }
  }

  /** Assembling an assembled row again changes nothing: every kept value
      is truthy, and every fallen-back value is a falsy default. */
  lemma FormatRowIdempotent(obj: WorkingRecord)
    ensures FormatRow(AsMap(FormatRow(obj))) == FormatRow(obj)
  {
    var r := FormatRow(obj);
    SchemaKeysDistinct();
    DefaultsFalsy();
    AsMapOfDistinct(r);
    SameRow(AsMap(r), obj);
  }
}

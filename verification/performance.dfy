/** The key reconciler for the PERFORMANCE sheet (src/index.cjs, lines
    151-278): every row is cleaned, filtered and then routed into the
    working record by the first rule that matches its label. */
module Performance {
  import opened JsValue
  import opened Strings
  import opened Normalize
  import opened Dates
  import opened Wrappers

  /** The four counters whose label comes in a singular and a plural form. */
  datatype Counter = Comments | Impressions | Reactions | Reposts

  /** The canonical field of a counter, which is also its plural label. */
  function CounterField(c: Counter): string {
    match c
    case Comments => "comments"
    case Impressions => "impressions"
    case Reactions => "reactions"
    case Reposts => "reposts"
  }

  function CounterSingular(c: Counter): string {
    match c
    case Comments => "comment"
    case Impressions => "impression"
    case Reactions => "reaction"
    case Reposts => "repost"
  }

  /** The three "top" labels a report lists twice: once in the block ranked by
      reactions, then in the block ranked by comments. */
  datatype Dimension = JobTitle | Location | Industry

  function TopLabel(d: Dimension): string {
    match d
    case JobTitle => "top_job_title"
    case Location => "top_location"
    case Industry => "top_industry"
  }

  /** The field the first occurrence of a top label fills. */
  function ReactionsSlot(d: Dimension): string {
    match d
    case JobTitle => "reactions_top_job_title"
    case Location => "reactions_top_location"
    case Industry => "reactions_top_industry"
  }

  /** The field every later occurrence of a top label fills. */
  function CommentsSlot(d: Dimension): string {
    match d
    case JobTitle => "comments_top_job_title"
    case Location => "comments_top_location"
    case Industry => "comments_top_industry"
  }

  /** The labels a special rule handles; any other label passes through. */
  const RoutedLabels: set<string> := {
    "comment", "comments", "impression", "impressions",
    "reaction", "reactions", "repost", "reposts",
    "post_publish_time", "post_date",
    "top_job_title", "top_location", "top_industry"
  }

  predicate Filled(rec: WorkingRecord, k: string) {
    k in rec && Truthy(rec[k])
  }

  /** First-seen-wins: the reactions slot while it is falsy, otherwise the
      comments slot. */
  function SlotFor(rec: WorkingRecord, d: Dimension): string {
    if Filled(rec, ReactionsSlot(d)) then CommentsSlot(d) else ReactionsSlot(d)
  }

  /** The field a kept row labelled `key` writes, the first matching rule
      winning; `None` for `__proto__`, since assigning a primitive to the
      `__proto__` of a plain object changes nothing. */
  function Target(rec: WorkingRecord, key: string): Option<string> {
    if key == CounterSingular(Comments) || key == CounterField(Comments) then Some(CounterField(Comments))
    else if key == CounterSingular(Impressions) || key == CounterField(Impressions) then Some(CounterField(Impressions))
    else if key == CounterSingular(Reactions) || key == CounterField(Reactions) then Some(CounterField(Reactions))
    else if key == CounterSingular(Reposts) || key == CounterField(Reposts) then Some(CounterField(Reposts))
    else if key == "post_publish_time" then Some("post_publish_time")
    else if key == "post_date" then Some("post_date")
    else if key == TopLabel(JobTitle) then Some(SlotFor(rec, JobTitle))
    else if key == TopLabel(Location) then Some(SlotFor(rec, Location))
    else if key == TopLabel(Industry) then Some(SlotFor(rec, Industry))
    else if key == "__proto__" then None
    else Some(key)
  }

  /** The value a kept row writes: the publish time and the post date are
      reformatted, every other value is stored as cleaned. */
  function Written(clock: Clock, key: string, v: Value): Value {
    if key == "post_publish_time" then Str(FormatTime(clock, v))
    else if key == "post_date" then Str(FormatDate(clock, v))
    else v
  }

  /** Field `j` of `r` is new or differs from `rec`. */
  predicate Changed(rec: WorkingRecord, r: WorkingRecord, j: string) {
    j in r && (j !in rec || r[j] != rec[j])
  }

  /** Routes one kept row (cleaned label `key`, value `v`) into the record. */
  function Reconcile(clock: Clock, rec: WorkingRecord, key: string, v: Value): WorkingRecord {
    match Target(rec, key)
    case None => rec
    case Some(k) => rec[k := Written(clock, key, v)]
  }

  /** One row removes no field, changes at most one, and a changed field
      holds the value the row writes; a `__proto__` row changes nothing. */
  lemma ReconcileChangesOneField(clock: Clock, rec: WorkingRecord, key: string, v: Value)
    ensures var r := Reconcile(clock, rec, key, v);
      && rec.Keys <= r.Keys
      && (forall i, j :: Changed(rec, r, i) && Changed(rec, r, j) ==> i == j)
      && (forall j :: Changed(rec, r, j) ==> r[j] == Written(clock, key, v))
      && (key == "__proto__" ==> r == rec)
  {
  }

  /** A PERFORMANCE row once cleaned: its label and its coerced value. The
      cleaning of a row does not depend on the record, so the sheet is
      cleaned first and routed afterwards. */
  datatype Entry = Entry(key: string, value: Value)

  function CleanRow(row: seq<Value>): Entry {
    Entry(RowLabel(row), RowValue(row))
  }

  function CleanRows(rows: seq<seq<Value>>): (es: seq<Entry>)
    ensures |es| == |rows|
    ensures forall i :: 0 <= i < |rows| ==> es[i] == CleanRow(rows[i])
  {
    seq(|rows|, i requires 0 <= i < |rows| => CleanRow(rows[i]))
  }

  /** The row survives the validity filter. */
  predicate Kept(e: Entry) {
    IsValidRow(e.key, e.value)
  }

  /** One cleaned row: dropped when invalid, else reconciled. */
  function Step(clock: Clock, rec: WorkingRecord, e: Entry): WorkingRecord {
    if Kept(e) then Reconcile(clock, rec, e.key, e.value) else rec
  }

  /** The cleaned rows, one after the other. */
  function Fold(clock: Clock, rec: WorkingRecord, es: seq<Entry>): WorkingRecord
    decreases |es|
  {
    if es == [] then rec else Fold(clock, Step(clock, rec, es[0]), es[1..])
  }

  /** The PERFORMANCE pass over a whole sheet. */
  function ProcessSheet(clock: Clock, rec: WorkingRecord, rows: seq<seq<Value>>): WorkingRecord {
    Fold(clock, rec, CleanRows(rows))
  }

  /** A row is dropped, leaving the record as it was, exactly when its label
      cleans to nothing or its value cell prints as blank. */
  lemma SkipsExactly(row: seq<Value>)
    ensures Kept(CleanRow(row)) <==> RowLabel(row) != "" && !AllSpace(ValueText(CellAt(row, 1)))
  {
    RowValidity(RowLabel(row), ValueText(CellAt(row, 1)));
  }

  /** Both labels of a synonym group write only the group's canonical field. */
  lemma SynonymsCollapse(clock: Clock, rec: WorkingRecord, key: string, v: Value, c: Counter)
    requires key == CounterSingular(c) || key == CounterField(c)
    ensures Reconcile(clock, rec, key, v) == rec[CounterField(c) := v]
  {
  }

  /** The first occurrence of a top label fills the reactions slot; once that
      slot holds a truthy value, every further occurrence writes the comments
      slot. */
  lemma TopLabelSlot(clock: Clock, rec: WorkingRecord, d: Dimension, v: Value)
    ensures !Filled(rec, ReactionsSlot(d)) ==> Reconcile(clock, rec, TopLabel(d), v) == rec[ReactionsSlot(d) := v]
    ensures Filled(rec, ReactionsSlot(d)) ==> Reconcile(clock, rec, TopLabel(d), v) == rec[CommentsSlot(d) := v]
  {
  }

  /** A label no rule claims is stored under its own name, and nothing else
      changes. */
  lemma PassThrough(clock: Clock, rec: WorkingRecord, key: string, v: Value)
    requires key !in RoutedLabels && key != "__proto__"
    ensures Reconcile(clock, rec, key, v) == rec[key := v]
  {
  }

  /** A `post_date` row stores the formatted date under `post_date`, and
      nothing else changes. */
  lemma DateRule(clock: Clock, rec: WorkingRecord, v: Value)
    ensures Reconcile(clock, rec, "post_date", v) == rec["post_date" := Str(FormatDate(clock, v))]
  {
  }

  /** A `post_publish_time` row stores the formatted time under
      `post_publish_time`, and nothing else changes. */
  lemma TimeRule(clock: Clock, rec: WorkingRecord, v: Value)
    ensures Reconcile(clock, rec, "post_publish_time", v) == rec["post_publish_time" := Str(FormatTime(clock, v))]
  {
  }

  // ---------------------------------------------------------- whole sheets

  lemma {:induction false} FoldAppend(clock: Clock, rec: WorkingRecord, rows: seq<Entry>, more: seq<Entry>)
    ensures Fold(clock, rec, rows + more) == Fold(clock, Fold(clock, rec, rows), more)
    decreases |rows|
  {
    if rows == [] {
      assert rows + more == more;
    } else {
      assert (rows + more)[1..] == rows[1..] + more;
      assert (rows + more)[0] == rows[0];
      FoldAppend(clock, Step(clock, rec, rows[0]), rows[1..], more);
    }
  }

  /** Of two kept rows of the same synonym group, the later one's value is
      the one the canonical field ends up with. */
  lemma LaterSynonymWins(clock: Clock, rec: WorkingRecord, first: Entry, second: Entry, c: Counter)
    requires Kept(first) && Kept(second)
    requires first.key in {CounterSingular(c), CounterField(c)}
    requires second.key in {CounterSingular(c), CounterField(c)}
    ensures Fold(clock, rec, [first, second]) == rec[CounterField(c) := second.value]
  {
    var r1 := Step(clock, rec, first);
    SynonymsCollapse(clock, rec, first.key, first.value, c);
    SynonymsCollapse(clock, r1, second.key, second.value, c);
    assert [first, second][1..] == [second];
    assert Fold(clock, r1, [second]) == Step(clock, r1, second);
  }

  /** Rows that all carry the top label of `d` and a truthy value. */
  predicate TopRows(rows: seq<Entry>, d: Dimension) {
    forall i :: 0 <= i < |rows| ==> rows[i].key == TopLabel(d) && Truthy(rows[i].value)
  }

  /** Once the reactions slot is filled, every further occurrence overwrites
      the comments slot, so the last occurrence is the one that stays. */
  lemma {:induction false} LaterOccurrences(clock: Clock, rec: WorkingRecord, rows: seq<Entry>, d: Dimension)
    requires rows != [] && TopRows(rows, d)
    requires Filled(rec, ReactionsSlot(d))
    ensures Fold(clock, rec, rows) == rec[CommentsSlot(d) := rows[|rows| - 1].value]
    decreases |rows|
  {
    var r1 := Step(clock, rec, rows[0]);
    TopLabelSlot(clock, rec, d, rows[0].value);
    assert r1 == rec[CommentsSlot(d) := rows[0].value];
    if |rows| == 1 {
      assert Fold(clock, r1, rows[1..]) == r1;
    } else {
      assert CommentsSlot(d) != ReactionsSlot(d);
      assert Filled(r1, ReactionsSlot(d));
      LaterOccurrences(clock, r1, rows[1..], d);
      assert rows[1..][|rows[1..]| - 1] == rows[|rows| - 1];
    }
  }

  /** Order of appearance decides the slot: the first occurrence of a top
      label lands in the reactions slot, the last of the later ones in the
      comments slot, and no other field changes. */
  lemma SlotsByOccurrence(clock: Clock, rec: WorkingRecord, rows: seq<Entry>, d: Dimension)
    requires rows != [] && TopRows(rows, d)
    requires !Filled(rec, ReactionsSlot(d))
    ensures var first := rec[ReactionsSlot(d) := rows[0].value];
      Fold(clock, rec, rows) == if |rows| == 1 then first else first[CommentsSlot(d) := rows[|rows| - 1].value]
  {
    var r1 := Step(clock, rec, rows[0]);
    TopLabelSlot(clock, rec, d, rows[0].value);
    assert r1 == rec[ReactionsSlot(d) := rows[0].value];
    if |rows| == 1 {
      assert Fold(clock, r1, rows[1..]) == r1;
    } else {
      LaterOccurrences(clock, r1, rows[1..], d);
      assert rows[1..][|rows[1..]| - 1] == rows[|rows| - 1];
    }
  }

  /** A filled reactions slot never changes again, unless a row carries the
      slot's own name as its label (that row passes through and overwrites it). */
  lemma {:induction false} FilledSlotStays(clock: Clock, rec: WorkingRecord, rows: seq<Entry>, d: Dimension)
    requires Filled(rec, ReactionsSlot(d))
    requires forall i :: 0 <= i < |rows| ==> rows[i].key != ReactionsSlot(d)
    ensures var r := Fold(clock, rec, rows); ReactionsSlot(d) in r && r[ReactionsSlot(d)] == rec[ReactionsSlot(d)]
    decreases |rows|
  {
    if rows != [] {
      var r1 := Step(clock, rec, rows[0]);
      if Kept(rows[0]) {
        ReconcileKeepsFilledSlot(clock, rec, rows[0].key, rows[0].value, d);
      }
      FilledSlotStays(clock, r1, rows[1..], d);
    }
  }

  lemma ReconcileKeepsFilledSlot(clock: Clock, rec: WorkingRecord, key: string, v: Value, d: Dimension)
    requires Filled(rec, ReactionsSlot(d))
    requires key != ReactionsSlot(d)
    ensures var r := Reconcile(clock, rec, key, v); ReactionsSlot(d) in r && r[ReactionsSlot(d)] == rec[ReactionsSlot(d)]
  {
    assert Target(rec, key) != Some(ReactionsSlot(d));
  }

  /** Whatever the rows, `post_date` only ever holds formatted text: no rule
      but the date rule writes it. */
  lemma {:induction false} PostDateIsText(clock: Clock, rec: WorkingRecord, rows: seq<Entry>)
    requires "post_date" in rec ==> rec["post_date"].Str? && rec["post_date"].s != ""
    ensures var r := Fold(clock, rec, rows); "post_date" in r ==> r["post_date"].Str? && r["post_date"].s != ""
    decreases |rows|
  {
    if rows != [] {
      PostDateIsText(clock, Step(clock, rec, rows[0]), rows[1..]);
    }
  }

  /** A kept row labelled `post_date`. */
  predicate DateRow(e: Entry) {
    Kept(e) && e.key == "post_date"
  }

  /** The position of the last kept `post_date` row, or -1 when there is
      none. */
  function LastDateRow(es: seq<Entry>): (k: int)
    ensures -1 <= k < |es|
    ensures k >= 0 ==> DateRow(es[k])
    ensures forall j :: k < j < |es| ==> !DateRow(es[j])
    decreases |es|
  {
    if es == [] then -1
    else if DateRow(es[|es| - 1]) then |es| - 1
    else
      var p := es[..|es| - 1];
      assert forall j :: 0 <= j < |p| ==> p[j] == es[j];
      LastDateRow(p)
  }

  /** What one row does to `post_date`: a date row writes the formatted
      date, any other row leaves the field's presence and value alone. */
  lemma StepDate(clock: Clock, r: WorkingRecord, e: Entry)
    ensures DateRow(e) ==> "post_date" in Step(clock, r, e) && Step(clock, r, e)["post_date"] == Str(FormatDate(clock, e.value))
    ensures !DateRow(e) ==> ("post_date" in Step(clock, r, e) <==> "post_date" in r)
    ensures !DateRow(e) && "post_date" in r ==> Step(clock, r, e)["post_date"] == r["post_date"]
  {
  }

  /** After a sheet, `post_date` holds the formatted date of the last kept
      `post_date` row; with no such row it is as it was before the sheet. */
  lemma {:induction false} PostDateFromLastRow(clock: Clock, rec: WorkingRecord, es: seq<Entry>)
    ensures var r := Fold(clock, rec, es); var k := LastDateRow(es);
      k >= 0 ==> "post_date" in r && r["post_date"] == Str(FormatDate(clock, es[k].value))
    ensures var r := Fold(clock, rec, es); var k := LastDateRow(es);
      k < 0 ==> ("post_date" in r <==> "post_date" in rec) && ("post_date" in rec ==> r["post_date"] == rec["post_date"])
    decreases |es|
  {
    if es != [] {
      var p := es[..|es| - 1];
      var e := es[|es| - 1];
      var mid := Fold(clock, rec, p);
      assert es == p + [e];
      FoldAppend(clock, rec, p, [e]);
      assert Fold(clock, mid, [e]) == Step(clock, mid, e) by {
        assert [e][1..] == [];
      }
      PostDateFromLastRow(clock, rec, p);
      StepDate(clock, mid, e);
      assert forall j :: 0 <= j < |p| ==> p[j] == es[j];
    }
  }
}

/** One run of the exporter over already-read workbooks (src/index.cjs,
    lines 127-333): each document's PERFORMANCE rows and then its TOP
    DEMOGRAPHICS rows fill an empty working record, `formatRow` projects
    it, and the rows are sorted by `post_date`. */
module Pipeline {
  import opened Wrappers
  import opened JsValue
  import opened Dates
  import opened Assemble
  import opened Sorting
  import Performance
  import Demographics

  /** The two sheets of a workbook that the exporter reads; `None` when the
      workbook has no sheet of that name. */
  datatype Workbook = Workbook(
    performance: Option<seq<seq<Value>>>,
    demographics: Option<seq<seq<Value>>>)

  /** The working record of one document: PERFORMANCE first, then TOP
      DEMOGRAPHICS, each only when the sheet exists. */
  function Record(clock: Clock, book: Workbook): WorkingRecord {
    var perf := if book.performance.Some?
      then Performance.ProcessSheet(clock, map[], book.performance.value) else map[];
    if book.demographics.Some? then Demographics.Fold(perf, book.demographics.value) else perf
  }

  /** The output row of one document. */
  function Document(clock: Clock, book: Workbook): (r: seq<Field>)
    ensures |r| == |ColOrder|
    ensures forall i :: 0 <= i < |r| ==> r[i].key == ColOrder[i].key
  {
    FormatRow(Record(clock, book))
  }

  /** The cleaned PERFORMANCE rows of a workbook; none when the sheet is
      missing. */
  function Entries(book: Workbook): seq<Performance.Entry> {
    if book.performance.Some? then Performance.CleanRows(book.performance.value) else []
  }

  /** The working record's `post_date` is the formatted date of the last
      kept `post_date` row of the PERFORMANCE sheet, and is missing when
      there is no such row: the TOP DEMOGRAPHICS sheet never writes it. */
  lemma RecordDate(clock: Clock, book: Workbook)
    ensures var r := Record(clock, book); var es := Entries(book); var k := Performance.LastDateRow(es);
      && (k < 0 ==> "post_date" !in r)
      && (k >= 0 ==> "post_date" in r && r["post_date"] == Str(FormatDate(clock, es[k].value)))
  {
    var perf := if book.performance.Some?
      then Performance.ProcessSheet(clock, map[], book.performance.value) else map[];
    assert perf == Performance.Fold(clock, map[], Entries(book));
    Performance.PostDateFromLastRow(clock, map[], Entries(book));
    if book.demographics.Some? {
      Demographics.OtherFieldsKept(perf, book.demographics.value, "post_date");
    }
  }

  /** A document's `post_date` is the formatted date of the last kept
      `post_date` row of its PERFORMANCE sheet, or the schema's null when
      there is no such row. */
  lemma DocumentDate(clock: Clock, book: Workbook)
    ensures var d := PostDate(Document(clock, book)); var es := Entries(book); var k := Performance.LastDateRow(es);
      && (k < 0 ==> d == Null)
      && (k >= 0 ==> d == Str(FormatDate(clock, es[k].value)))
  {
    var rec := Record(clock, book);
    var es := Entries(book);
    var k := Performance.LastDateRow(es);
    RowDate(rec);
    RecordDate(clock, book);
    if k >= 0 {
      assert Truthy(rec["post_date"]);
    }
  }

  /** A document's `post_date` is either the schema's null or non-empty
      text. */
  lemma DocumentDateIsText(clock: Clock, book: Workbook)
    ensures var d := PostDate(Document(clock, book));
      d == Null || (d.Str? && d.s != "")
  {
    DocumentDate(clock, book);
    var es := Entries(book);
    var k := Performance.LastDateRow(es);
    if k >= 0 {
      assert |FormatDate(clock, es[k].value)| >= 5;
    }
  }

  /** An output row's `post_date` is the record's, when truthy, or null. */
  lemma RowDate(rec: WorkingRecord)
    ensures PostDate(FormatRow(rec)) == Pick(rec, "post_date", Null)
  {
    var r := FormatRow(rec);
    assert ColOrder[0] == Field("post_date", Null);
    assert r[0].key == "post_date" && r[0].value == Pick(rec, "post_date", Null);
  }

  /** The output rows of the documents, in directory order. */
  function Rows(clock: Clock, books: seq<Workbook>): (rs: seq<seq<Field>>)
    ensures |rs| == |books|
    ensures forall i :: 0 <= i < |books| ==> rs[i] == Document(clock, books[i])
    decreases |books|
  {
    if books == [] then [] else [Document(clock, books[0])] + Rows(clock, books[1..])
  }

  /** Whether every row's `post_date` is text. */
  predicate AllTextDates(rs: seq<seq<Field>>) {
    forall i :: 0 <= i < |rs| ==> HasTextDate(rs[i])
  }

  /** The whole run: `None` when sorting would throw (two or more rows and
      some `post_date` that is not text), else the rows, most recent first. */
  function Run(clock: Clock, books: seq<Workbook>): (r: Option<seq<seq<Field>>>)
    ensures r.Some? <==> |books| <= 1 || forall i :: 0 <= i < |books| ==> HasTextDate(Document(clock, books[i]))
    ensures r.Some? ==> |r.value| == |books| && Descending(r.value)
    ensures r.Some? ==> multiset(r.value) == multiset(Rows(clock, books))
  {
    var rows := Rows(clock, books);
    if |rows| <= 1 || AllTextDates(rows) then
      var sorted := SortByRecentDate(rows);
      assert |sorted| == |multiset(sorted)| == |multiset(rows)| == |rows|;
      Some(sorted)
    else None
  }
}

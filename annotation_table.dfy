/** The record-to-column reshaping of getAnnotations in PySysrev/funcs.py, applied
    to the `result` list of the project-annotations response (the HTTP fetch itself
    is not modelled), and the row view of the resulting data frame. */
module AnnotationTable {
  import opened Wrappers

  /** The `context` object of one annotation; an offset is None when its key is absent. */
  datatype Context = Context(textContext: string, startOffset: Option<int>, endOffset: Option<int>)

  /** One element of the response's `result` list. */
  datatype Record = Record(
    selection: string, annotation: string, semanticClass: string,
    pmid: int, articleId: int, context: Context)

  /** The column dictionary handed to `DataFrame.from_dict`. */
  datatype Table = Table(
    selection: seq<string>, annotation: seq<string>, semanticClass: seq<string>,
    externalId: seq<int>, sysrevId: seq<int>, text: seq<string>,
    start: seq<Option<int>>, end: seq<Option<int>>, datasource: seq<string>)

  /** One row of the data frame. */
  datatype Row = Row(
    selection: string, annotation: string, semanticClass: string,
    externalId: int, sysrevId: int, text: string,
    start: Option<int>, end: Option<int>, datasource: string)

  const PUBMED := "pubmed"

  /** Every column has the same number of entries. */
  predicate WellFormed(t: Table)
  {
    var n := |t.selection|;
    |t.annotation| == n && |t.semanticClass| == n && |t.externalId| == n && |t.sysrevId| == n &&
    |t.text| == n && |t.start| == n && |t.end| == n && |t.datasource| == n
  }

  /** The columns built from the records, one comprehension per column. */
  function GetAnnotations(result: seq<Record>): (t: Table)
    ensures WellFormed(t) && |t.selection| == |result|
    ensures forall i :: 0 <= i < |result| ==>
      t.sysrevId[i] == result[i].articleId && t.externalId[i] == result[i].pmid &&
      t.text[i] == result[i].context.textContext && t.datasource[i] == PUBMED
    ensures forall i :: 0 <= i < |result| ==>
      t.start[i] == result[i].context.startOffset && t.end[i] == result[i].context.endOffset
  {
    var n := |result|;
    Table(
      seq(n, i requires 0 <= i < n => result[i].selection),
      seq(n, i requires 0 <= i < n => result[i].annotation),
      seq(n, i requires 0 <= i < n => result[i].semanticClass),
      seq(n, i requires 0 <= i < n => result[i].pmid),
      seq(n, i requires 0 <= i < n => result[i].articleId),
      seq(n, i requires 0 <= i < n => result[i].context.textContext),
      seq(n, i requires 0 <= i < n => result[i].context.startOffset),
      seq(n, i requires 0 <= i < n => result[i].context.endOffset),
      seq(n, _ => PUBMED))
  }

  /** The rows of the frame built from a column dictionary (`DataFrame.from_dict`). */
  function FromColumns(t: Table): (rows: seq<Row>)
    requires WellFormed(t)
  {
    seq(|t.selection|, i requires 0 <= i < |t.selection| =>
      Row(t.selection[i], t.annotation[i], t.semanticClass[i], t.externalId[i], t.sysrevId[i],
          t.text[i], t.start[i], t.end[i], t.datasource[i]))
  }

  /** The column dictionary of a list of rows. */
  function ToColumns(rows: seq<Row>): (t: Table)
  {
    var n := |rows|;
    Table(
      seq(n, i requires 0 <= i < n => rows[i].selection),
      seq(n, i requires 0 <= i < n => rows[i].annotation),
      seq(n, i requires 0 <= i < n => rows[i].semanticClass),
      seq(n, i requires 0 <= i < n => rows[i].externalId),
      seq(n, i requires 0 <= i < n => rows[i].sysrevId),
      seq(n, i requires 0 <= i < n => rows[i].text),
      seq(n, i requires 0 <= i < n => rows[i].start),
      seq(n, i requires 0 <= i < n => rows[i].end),
      seq(n, i requires 0 <= i < n => rows[i].datasource))
  }

  /** The row view and the column view describe the same frame. */
  lemma ColumnsRoundTrip(t: Table)
    requires WellFormed(t)
    ensures WellFormed(ToColumns(FromColumns(t))) && ToColumns(FromColumns(t)) == t
  {
    var t' := ToColumns(FromColumns(t));
    assert t'.selection == t.selection && t'.annotation == t.annotation;
    assert t'.semanticClass == t.semanticClass && t'.externalId == t.externalId;
    assert t'.sysrevId == t.sysrevId && t'.text == t.text;
    assert t'.start == t.start && t'.end == t.end && t'.datasource == t.datasource;
  }

  /** Every sequence of rows is the row view of its own column view. */
  lemma RowsRoundTrip(rows: seq<Row>)
    ensures WellFormed(ToColumns(rows)) && FromColumns(ToColumns(rows)) == rows
  {
  }

  /** The i-th row of the frame built by getAnnotations is the i-th record reshaped:
      its offsets are the context's and its data source is "pubmed". */
  lemma FrameRows(result: seq<Record>)
    ensures var rows := FromColumns(GetAnnotations(result));
      |rows| == |result| &&
      forall i :: 0 <= i < |result| ==>
        rows[i] == Row(result[i].selection, result[i].annotation, result[i].semanticClass,
                       result[i].pmid, result[i].articleId, result[i].context.textContext,
                       result[i].context.startOffset, result[i].context.endOffset, PUBMED)
  {
  }
}

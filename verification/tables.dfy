/** Table-row injection: the first top-level table whose first cell shows one
    of the column headers receives one new row per record directly under its
    header row, after which at most one old row is evicted
    (ReportGenerationService.java, lines 368-442). */
module Tables {
  import opened Results
  import opened Documents

  /** One entry of the ordered column map: a record field and the header
      text the template's table shows for it. */
  datatype Column = Column(field: string, header: string)

  /** The display values of the column map (`containsValue`). */
  function Headers(columns: seq<Column>): set<string>
  {
    set c | c in columns :: c.header
  }

  /** Tables with fewer rows than this never lose a row. */
  const EvictionFloor: nat := 5

  // ---------------------------------------------------------------------
  // Locating the table
  // ---------------------------------------------------------------------

  /** `getCellValue`: the text of the cell's first item as `show` renders
      it, or "" for an empty cell. */
  function CellValue(c: Cell, show: Paragraph -> string): (v: string)
    ensures |c.paragraphs| == 0 ==> v == ""
    ensures |c.paragraphs| > 0 ==> v == show(c.paragraphs[0])
  {
    if |c.paragraphs| > 0 then show(c.paragraphs[0]) else ""
  }

  /** `getFirstCellValue`: the value of the first cell of the first row,
      or "" when there is no such cell. */
  function FirstCellValue(t: Table, show: Paragraph -> string): (v: string)
    ensures (|t.rows| == 0 || |t.rows[0].cells| == 0 || |t.rows[0].cells[0].paragraphs| == 0) ==> v == ""
    ensures |t.rows| > 0 && |t.rows[0].cells| > 0 && |t.rows[0].cells[0].paragraphs| > 0 ==>
      v == show(t.rows[0].cells[0].paragraphs[0])
  {
    if |t.rows| > 0 && |t.rows[0].cells| > 0 then CellValue(t.rows[0].cells[0], show) else ""
  }

  /** Block `i` is a table whose first cell shows a column header. */
  predicate IsTarget(body: seq<Block>, i: int, columns: seq<Column>, show: Paragraph -> string)
  {
    0 <= i < |body| && body[i].Tbl? && FirstCellValue(body[i].t, show) in Headers(columns)
  }

  /** The first target table among `body[k..]`. */
  function FindTable(body: seq<Block>, columns: seq<Column>, show: Paragraph -> string, k: nat): (r: Option<nat>)
    requires k <= |body|
    ensures r.Some? ==>
      k <= r.value && IsTarget(body, r.value, columns, show) &&
      forall j :: k <= j < r.value ==> !IsTarget(body, j, columns, show)
    ensures r.None? ==> forall j :: k <= j < |body| ==> !IsTarget(body, j, columns, show)
    decreases |body| - k
  {
    if k == |body| then None
    else if IsTarget(body, k, columns, show) then Some(k)
    else FindTable(body, columns, show, k + 1)
  }

  // ---------------------------------------------------------------------
  // Building rows
  // ---------------------------------------------------------------------

  /** A record's value for a field, or "" when the record has none. */
  function FieldValue(record: map<string, string>, field: string): string
  {
    if field in record then record[field] else ""
  }

  /** A cell holding one paragraph with one run with one text node. */
  function TextCell(value: string): (c: Cell)
    ensures |c.paragraphs| == 1 && ParagraphText(c.paragraphs[0]) == value
  {
    var p := Paragraph(None, [Run([Text(Created, value)])]);
    assert RunText([Text(Created, value)]) == value + RunText([]);
    assert ChildrenText(p.content) == value + ChildrenText([]);
    Cell(None, [p])
  }

  /** `createRowFromRecord`: one cell per column, in column order, holding
      the record's value for that column's field. */
  function RowFromRecord(columns: seq<Column>, record: map<string, string>): (r: Row)
    ensures |r.cells| == |columns|
    ensures forall j :: 0 <= j < |columns| ==>
      |r.cells[j].paragraphs| == 1 &&
      ParagraphText(r.cells[j].paragraphs[0]) == (if columns[j].field in record then record[columns[j].field] else "")
  {
    Row(seq(|columns|, j requires 0 <= j < |columns| => TextCell(FieldValue(record, columns[j].field))))
  }

  /** The rows made from the records: row `k` shows record `k`'s value for
      each column's field, in column order. */
  function FreshRows(columns: seq<Column>, records: seq<map<string, string>>): (rs: seq<Row>)
    ensures |rs| == |records|
    ensures forall k | 0 <= k < |records| :: |rs[k].cells| == |columns|
    ensures forall k, j | 0 <= k < |records| && 0 <= j < |columns| ::
      |rs[k].cells[j].paragraphs| == 1 &&
      ParagraphText(rs[k].cells[j].paragraphs[0]) == FieldValue(records[k], columns[j].field)
  {
    seq(|records|, k requires 0 <= k < |records| => RowFromRecord(columns, records[k]))
  }

  // ---------------------------------------------------------------------
  // Inserting and evicting
  // ---------------------------------------------------------------------

  /** The insertion loop: the k-th added row is added at index `at + k` of
      the list as it then stands; adding past its end fails. */
  function InsertRows(rows: seq<Row>, added: seq<Row>, at: nat): (r: Result<seq<Row>>)
    ensures r.Failure? <==> added != [] && at > |rows|
    ensures r.Failure? ==> r.error == RowIndexOutOfRange(at, |rows|)
    ensures r.Success? ==> |r.value| == |rows| + |added|
    decreases |added|
  {
    if added == [] then Success(rows)
    else if at > |rows| then Failure(RowIndexOutOfRange(at, |rows|))
    else InsertRows(rows[..at] + [added[0]] + rows[at..], added[1..], at + 1)
  }

  /** Inserting at consecutive indices from a valid one keeps the added
      rows together and in order. */
  lemma {:induction false} InsertRowsShape(rows: seq<Row>, added: seq<Row>, at: nat)
    requires at <= |rows|
    ensures InsertRows(rows, added, at) == Success(rows[..at] + added + rows[at..])
    decreases |added|
  {
    if added != [] {
      var rows1 := rows[..at] + [added[0]] + rows[at..];
      assert InsertRows(rows, added, at) == InsertRows(rows1, added[1..], at + 1);
      InsertRowsShape(rows1, added[1..], at + 1);
      assert rows1[..at + 1] == rows[..at] + [added[0]];
      assert rows1[at + 1..] == rows[at..];
      assert [added[0]] + added[1..] == added;
      assert rows1[..at + 1] + added[1..] + rows1[at + 1..] == rows[..at] + added + rows[at..];
    } else {
      assert rows[..at] + added + rows[at..] == rows;
    }
  }

  /** A table without rows cannot take a row at index 1. */
  lemma InsertIntoEmptyFails(added: seq<Row>)
    requires added != []
    ensures InsertRows([], added, 1) == Failure(RowIndexOutOfRange(1, 0))
  {
  }

  /** The eviction rule after `n` rows went in: when the table has more than
      `n + 1` rows and more than five, the row at index `n + 2` is removed,
      which fails when that index is the size of the table. */
  function Evict(rows: seq<Row>, n: nat): (r: Result<seq<Row>>)
    ensures r.Failure? <==> |rows| == n + 2 && |rows| > EvictionFloor
    ensures r.Failure? ==> r.error == RowIndexOutOfRange(n + 2, |rows|)
    ensures r.Success? && (|rows| <= n + 1 || |rows| <= EvictionFloor) ==> r.value == rows
    ensures r.Success? && |rows| > n + 1 && |rows| > EvictionFloor ==>
      && |r.value| == |rows| - 1
      && (forall k | 0 <= k < n + 2 :: r.value[k] == rows[k])
      && (forall k | n + 2 <= k < |r.value| :: r.value[k] == rows[k + 1])
  {
    if |rows| > n + 1 && |rows| > EvictionFloor then
      if n + 2 < |rows| then Success(rows[..n + 2] + rows[n + 3..])
      else Failure(RowIndexOutOfRange(n + 2, |rows|))
    else Success(rows)
  }

  /** The rows of a target table after the records went in. */
  function AddRows(t: Table, columns: seq<Column>, records: seq<map<string, string>>): (r: Result<Table>)
    ensures r.Success? && |t.rows| >= 1 ==>
      && |r.value.rows| >= |records| + 1
      && r.value.rows[0] == t.rows[0]
      && r.value.rows[1..|records| + 1] == FreshRows(columns, records)
  {
    match InsertRows(t.rows, FreshRows(columns, records), 1)
    case Failure(e) => Failure(e)
    case Success(rows) =>
      match Evict(rows, |records|)
      case Failure(e) => Failure(e)
      case Success(rows') =>
        if |t.rows| == 0 then Success(Table(rows'))
        else
          InsertRowsShape(t.rows, FreshRows(columns, records), 1);
          assert forall k | 1 <= k < |records| + 1 :: rows'[k] == rows[k] == FreshRows(columns, records)[k - 1];
          Success(Table(rows'))
  }

  /** Whether the eviction rule removes a row from a table of `size` rows
      after `n` insertions. */
  predicate Evicts(size: nat, n: nat)
  {
    size > 1 && size + n > EvictionFloor
  }

  /** What row injection does to a target table of `s` rows given `n`
      records: it fails exactly when the table is empty and there are
      records, or when the table has one data row and at least four
      records; otherwise the records' rows sit at indices 1..n in record
      order, and at most one old row, the second data row, is gone. */
  lemma AddRowsShape(t: Table, columns: seq<Column>, records: seq<map<string, string>>)
    ensures AddRows(t, columns, records).Failure? <==>
      (|t.rows| == 0 && |records| >= 1) || (|t.rows| == 2 && |records| >= 4)
    ensures |t.rows| == 0 && |records| == 0 ==> AddRows(t, columns, records) == Success(t)
    ensures |t.rows| >= 1 && !Evicts(|t.rows|, |records|) ==>
      AddRows(t, columns, records) ==
        Success(Table(t.rows[..1] + FreshRows(columns, records) + t.rows[1..]))
    ensures |t.rows| >= 3 && Evicts(|t.rows|, |records|) ==>
      AddRows(t, columns, records) ==
        Success(Table(t.rows[..1] + FreshRows(columns, records) + [t.rows[1]] + t.rows[3..]))
  {
    var added := FreshRows(columns, records);
    var n := |records|;
    if |t.rows| == 0 {
      if n >= 1 {
        InsertIntoEmptyFails(added);
      }
    } else {
      InsertRowsShape(t.rows, added, 1);
      var rows := t.rows[..1] + added + t.rows[1..];
      assert |rows| == |t.rows| + n;
      if Evicts(|t.rows|, n) && |t.rows| >= 3 {
        assert rows[..n + 2] == t.rows[..1] + added + [t.rows[1]];
        assert rows[n + 3..] == t.rows[3..];
      }
    }
  }

  /** The row count after a successful injection: every record adds a row
      and an eviction removes one. */
  lemma AddRowsSize(t: Table, columns: seq<Column>, records: seq<map<string, string>>)
    requires AddRows(t, columns, records).Success?
    ensures |AddRows(t, columns, records).value.rows| ==
      |t.rows| + |records| - (if Evicts(|t.rows|, |records|) then 1 else 0)
    ensures Evicts(|t.rows|, |records|) ==> |t.rows| >= 3
  {
    AddRowsShape(t, columns, records);
  }

  /** A header with three data rows given two records: the six rows after
      insertion are more than five, so the row at index 4, the second old
      data row, is evicted and five rows remain. */
  lemma TwoRecordsIntoThreeDataRows(t: Table, columns: seq<Column>, records: seq<map<string, string>>)
    requires |t.rows| == 4 && |records| == 2
    ensures AddRows(t, columns, records) ==
      Success(Table(t.rows[..1] + FreshRows(columns, records) + [t.rows[1], t.rows[3]]))
  {
    AddRowsShape(t, columns, records);
    assert Evicts(|t.rows|, |records|);
    assert t.rows[3..] == [t.rows[3]];
    assert t.rows[..1] + FreshRows(columns, records) + [t.rows[1]] + t.rows[3..] ==
      t.rows[..1] + FreshRows(columns, records) + [t.rows[1], t.rows[3]];
  }

  // ---------------------------------------------------------------------
  // The injector
  // ---------------------------------------------------------------------

  /** `addTableToDocument`: only the first target table changes; a failed
      insertion or removal fails the whole step. */
  function InjectRows(doc: Document, columns: seq<Column>, records: seq<map<string, string>>,
                      show: Paragraph -> string): (r: Result<Document>)
    ensures r.Success? ==> |r.value.body| == |doc.body| && r.value.extents == doc.extents
  {
    match FindTable(doc.body, columns, show, 0)
    case None => Success(doc)
    case Some(i) =>
      match AddRows(doc.body[i].t, columns, records)
      case Failure(e) => Failure(e)
      case Success(t') => Success(Document(doc.body[i := Tbl(t')], doc.extents))
  }

  /** With no target table nothing changes; otherwise the first target table,
      and nothing else, is rewritten by `AddRows`, and the step fails
      exactly when `AddRows` fails on that table. */
  lemma InjectRowsTouchesFirstTarget(doc: Document, columns: seq<Column>, records: seq<map<string, string>>,
                                     show: Paragraph -> string)
    ensures (forall j :: 0 <= j < |doc.body| ==> !IsTarget(doc.body, j, columns, show)) ==>
      InjectRows(doc, columns, records, show) == Success(doc)
    ensures (exists j :: IsTarget(doc.body, j, columns, show)) ==> exists i ::
      && IsTarget(doc.body, i, columns, show)
      && (forall j :: 0 <= j < i ==> !IsTarget(doc.body, j, columns, show))
      && (InjectRows(doc, columns, records, show).Failure? <==> AddRows(doc.body[i].t, columns, records).Failure?)
      && (InjectRows(doc, columns, records, show).Success? ==>
            InjectRows(doc, columns, records, show).value ==
              Document(doc.body[i := Tbl(AddRows(doc.body[i].t, columns, records).value)], doc.extents))
  {
    var found := FindTable(doc.body, columns, show, 0);
    if found.Some? {
      var i := found.value;
      assert IsTarget(doc.body, i, columns, show);
    }
  }

  /** Rows go in at index 1 and later, so a successful injection keeps the
      first row, and with it the value the target check reads. */
  lemma AddRowsKeepsFirstCellValue(t: Table, columns: seq<Column>, records: seq<map<string, string>>,
                                   show: Paragraph -> string)
    ensures AddRows(t, columns, records).Success? ==>
      FirstCellValue(AddRows(t, columns, records).value, show) == FirstCellValue(t, show)
  {
    AddRowsShape(t, columns, records);
  }

  /** After a successful injection the same table is still the first
      target, so the first-cell check selects it again. */
  lemma InjectRowsKeepsFirstTarget(doc: Document, columns: seq<Column>, records: seq<map<string, string>>,
                                   show: Paragraph -> string)
    ensures InjectRows(doc, columns, records, show).Success? ==>
      FindTable(InjectRows(doc, columns, records, show).value.body, columns, show, 0) ==
        FindTable(doc.body, columns, show, 0)
  {
    var r := InjectRows(doc, columns, records, show);
    match FindTable(doc.body, columns, show, 0) {
      case None =>
      case Some(i) =>
        if r.Success? {
          var t := doc.body[i].t;
          AddRowsKeepsFirstCellValue(t, columns, records, show);
          var after := r.value.body;
          assert after == doc.body[i := Tbl(AddRows(t, columns, records).value)];
          assert IsTarget(after, i, columns, show);
          forall j | 0 <= j < i ensures !IsTarget(after, j, columns, show) {
            assert after[j] == doc.body[j];
            assert !IsTarget(doc.body, j, columns, show);
          }
        }
    }
  }

  /** `addTableToDocument` given the converted `tableData`, which is null
      when the payload has no such entry: the loop over null records throws
      as soon as a target table is found. */
  function InjectTableData(doc: Document, columns: seq<Column>, records: Option<seq<map<string, string>>>,
                           show: Paragraph -> string): (r: Result<Document>)
    ensures records.None? ==> (r.Failure? <==> exists i :: IsTarget(doc.body, i, columns, show))
    ensures records.None? && r.Failure? ==> r.error == NullRecords
    ensures records.None? && r.Success? ==> r.value == doc
    ensures r.Success? ==> |r.value.body| == |doc.body| && r.value.extents == doc.extents
  {
    match records
    case None => if FindTable(doc.body, columns, show, 0).Some? then Failure(NullRecords) else Success(doc)
    case Some(rs) => InjectRows(doc, columns, rs, show)
  }
}

/** The template-filling pipeline of `parseToPdf` up to the hand-off to the
    renderer (ReportGenerationService.java, lines 42-64 and 79-103):
    scan, default, split the values, substitute text, place images, inject
    table rows, normalise alignment. */
module Generation {
  import opened Results
  import opened Documents
  import opened Values
  import opened Placeholders
  import opened Images
  import opened Tables
  import opened Alignment

  /** The filled document and the working data map it was filled from. */
  datatype Prepared = Prepared(doc: Document, data: map<string, Value>)

  /** `prepareWordMLPackage`. `substitute` stands for the document engine's
      run merging and bulk `${key}` replacement with the text values;
      `order` is the iteration order of the image map, which visits each
      image key once. */
  function Prepare(doc: Document, data: map<string, Value>,
                   substitute: (Document, map<string, string>) -> Document,
                   order: seq<string>): (r: Prepared)
    requires ListsOnce(order, ImageValues(data).Keys)
    ensures forall t | t in DocumentKeys(doc.body) :: InnerKey(t) in r.data
    ensures forall k | k in data :: k in r.data && r.data[k] == data[k]
    ensures forall k | k in r.data && k !in data :: r.data[k] == Str(Blank)
    ensures ImageValues(r.data) == ImageValues(data)
    ensures |r.doc.body| == |substitute(doc, TextValues(r.data)).body|
  {
    var working := Defaulted(DocumentKeys(doc.body), data);
    DefaultedKeepsImages(DocumentKeys(doc.body), data);
    var filled := substitute(doc, TextValues(working));
    Prepared(ReplaceImages(filled, ImageValues(working), order), working)
  }

  /** The document after text substitution, before the images are placed. */
  function Filled(doc: Document, data: map<string, Value>,
                  substitute: (Document, map<string, string>) -> Document): Document
  {
    substitute(doc, TextValues(Defaulted(DocumentKeys(doc.body), data)))
  }

  /** When the substituted document's text nodes have distinct ids, every
      image key of the caller's map with a decodable resource is placed: no
      top-level paragraph and no paragraph of a top-level table's cell
      still holds a text node whose value is that key, each such paragraph
      that held one is now the picture of a key whose text it held, and
      every other paragraph is as substitution left it. */
  lemma PreparePlacesImages(doc: Document, data: map<string, Value>,
                            substitute: (Document, map<string, string>) -> Document,
                            order: seq<string>)
    requires ListsOnce(order, ImageValues(data).Keys)
    requires DistinctIds(Filled(doc, data, substitute).body)
    ensures var body := Prepare(doc, data, substitute, order).doc.body;
      forall k, pos, id |
        && k in ImageValues(data) && ImageValues(data)[k].decodable
        && Replaceable(pos) && ValidParaPos(body, pos) ::
          !HasText(ParaAt(body, pos), id, k)
    ensures PicturedFrom(Filled(doc, data, substitute).body, Prepare(doc, data, substitute, order).doc.body,
                         DecodableKeys(ImageValues(data)))
    ensures var before := Filled(doc, data, substitute).body;
      forall k, pos, id |
        && k in ImageValues(data) && ImageValues(data)[k].decodable
        && Replaceable(pos) && ValidParaPos(before, pos) && HasText(ParaAt(before, pos), id, k) ::
          exists k' | k' in DecodableKeys(ImageValues(data)) ::
            ParaAt(Prepare(doc, data, substitute, order).doc.body, pos) == ImageParagraph(k')
  {
    DefaultedKeepsImages(DocumentKeys(doc.body), data);
    ReplaceImagesPlaces(Filled(doc, data, substitute), ImageValues(data), order);
  }

  /** Placing a key held by the one paragraph of a one-cell table. */
  lemma PlaceInSingleCell(key: string, w: int, id: NodeId, res: Resource)
    requires res.decodable
    ensures var cell := Cell(Some(CellProperties(Some(w))), [Paragraph(None, [Run([Text(id, key)])])]);
      AddImage(Document([Tbl(Table([Row([cell])]))], map[]), key, res) ==
        Document([Tbl(Table([Row([Cell(cell.tcPr, [ImageParagraph(key)])])]))], map[key := CellExtent(cell)])
  {
    var p := Paragraph(None, [Run([Text(id, key)])]);
    var cell := Cell(Some(CellProperties(Some(w))), [p]);
    var body := [Tbl(Table([Row([cell])]))];
    var doc := Document(body, map[]);
    assert HasNode(p, id) by {
      assert p.content[0].items[0] == Text(id, key);
    }
    SingleCellParagraphs(cell);
    assert ImageMatches(body, key) == [id] by {
      assert MatchesIn([p], key) == ParagraphMatches(p, key) + MatchesIn([], key);
      assert RunMatches(p.content[0].items, key) == [id] + RunMatches([], key);
      assert ChildrenMatches(p.content, key) == RunMatches(p.content[0].items, key) + ChildrenMatches([], key);
    }
    assert CellHolds(cell, id) by {
      assert CellParagraphAt(cell.paragraphs, 0, id);
    }
    assert FindCell(body, id, 0) == Some(CellPos(0, 0, 0));
    assert CellIndex(cell.paragraphs, id, 0) == Some(0);
    var placed := Cell(cell.tcPr, [ImageParagraph(key)]);
    assert cell.paragraphs[0 := ImageParagraph(key)] == [ImageParagraph(key)];
    assert ReplaceInCell(cell, id, key) == (placed, true);
    assert SetCell(body, CellPos(0, 0, 0), placed) == [Tbl(Table([Row([placed])]))] by {
      assert [cell][0 := placed] == [placed];
      assert [Row([cell])][0 := Row([placed])] == [Row([placed])];
      assert body[0 := Tbl(Table([Row([placed])]))] == [Tbl(Table([Row([placed])]))];
    }
    assert PlaceOne(doc, id, key) == Document([Tbl(Table([Row([placed])]))], map[key := CellExtent(cell)]);
    assert PlaceAll(doc, [id], key) == PlaceAll(PlaceOne(doc, id, key), [], key);
  }

  /** A one-cell table whose cell paragraph holds an image key's text node:
      with the text left as it is, the paragraph becomes a picture sized to
      the cell, and the key's extent is the cell's. */
  lemma CellPictureScenario(key: string, w: int, id: NodeId, res: Resource, data: map<string, Value>)
    requires res.decodable && ImageValues(data) == map[key := res]
    ensures var cell := Cell(Some(CellProperties(Some(w))), [Paragraph(None, [Run([Text(id, key)])])]);
      Prepare(Document([Tbl(Table([Row([cell])]))], map[]), data, (d, m) => d, [key]).doc ==
        Document([Tbl(Table([Row([Cell(cell.tcPr, [ImageParagraph(key)])])]))], map[key := CellExtent(cell)])
  {
    var cell := Cell(Some(CellProperties(Some(w))), [Paragraph(None, [Run([Text(id, key)])])]);
    var doc := Document([Tbl(Table([Row([cell])]))], map[]);
    var images := map[key := res];
    assert ListsOnce([key], ImageValues(data).Keys);
    DefaultedKeepsImages(DocumentKeys(doc.body), data);
    PlaceInSingleCell(key, w, id, res);
    assert PlaceKeys(doc, images, [key]) == PlaceKeys(AddImage(doc, key, res), images, []);
  }

  /** The document handed to the renderer, or the failure that makes
      `parseToPdf` return null. `records` is the converted `tableData`
      entry, `None` when the payload has none. */
  function Generate(doc: Document, data: map<string, Value>, tableInclude: bool,
                    records: Option<seq<map<string, string>>>, columns: seq<Column>,
                    show: Paragraph -> string,
                    substitute: (Document, map<string, string>) -> Document,
                    order: seq<string>): (r: Result<Document>)
    requires ListsOnce(order, ImageValues(data).Keys)
    ensures r.Success? ==> Normalized(r.value.body)
    ensures !tableInclude ==> r.Success?
  {
    var prepared := Prepare(doc, data, substitute, order);
    var injected := if tableInclude then InjectTableData(prepared.doc, columns, records, show) else Success(prepared.doc);
    match injected
    case Failure(e) => Failure(e)
    case Success(d) =>
      NormalizeBodyNormalizes(d.body);
      Success(NormalizeDocument(d))
  }

  /** Row injection into the first target table fails: the table is empty
      and there are records, or it has exactly one data row and there are
      at least four records. */
  ghost predicate InjectionFails(body: seq<Block>, columns: seq<Column>, show: Paragraph -> string, n: nat)
  {
    exists i ::
      && IsTarget(body, i, columns, show)
      && (forall j :: 0 <= j < i ==> !IsTarget(body, j, columns, show))
      && FailsAt(body[i].t, n)
  }

  /** The table shapes on which `addRowToTable` fails for `n` records. */
  predicate FailsAt(t: Table, n: nat)
  {
    (|t.rows| == 0 && n >= 1) || (|t.rows| == 2 && n >= 4)
  }

  lemma AddRowsFailsIff(t: Table, columns: seq<Column>, records: seq<map<string, string>>)
    ensures AddRows(t, columns, records).Failure? <==> FailsAt(t, |records|)
  {
    AddRowsShape(t, columns, records);
  }

  /** There is only one first target table. */
  lemma FirstTargetUnique(body: seq<Block>, columns: seq<Column>, show: Paragraph -> string, i: int, i': int)
    requires IsTarget(body, i, columns, show) && (forall j :: 0 <= j < i ==> !IsTarget(body, j, columns, show))
    requires IsTarget(body, i', columns, show) && (forall j :: 0 <= j < i' ==> !IsTarget(body, j, columns, show))
    ensures i == i'
  {
  }

  /** Row injection fails exactly when its first target table makes
      `addRowToTable` fail. */
  lemma InjectRowsFailsIff(d: Document, columns: seq<Column>, records: seq<map<string, string>>,
                           show: Paragraph -> string)
    ensures InjectRows(d, columns, records, show).Failure? <==> InjectionFails(d.body, columns, show, |records|)
  {
    var body := d.body;
    var failed := InjectRows(d, columns, records, show).Failure?;
    InjectRowsTouchesFirstTarget(d, columns, records, show);
    if exists j :: IsTarget(body, j, columns, show) {
      var i :| && IsTarget(body, i, columns, show)
               && (forall j :: 0 <= j < i ==> !IsTarget(body, j, columns, show))
               && (failed <==> AddRows(body[i].t, columns, records).Failure?);
      AddRowsFailsIff(body[i].t, columns, records);
      if InjectionFails(body, columns, show, |records|) {
        var i' :| && IsTarget(body, i', columns, show)
                  && (forall j :: 0 <= j < i' ==> !IsTarget(body, j, columns, show))
                  && FailsAt(body[i'].t, |records|);
        FirstTargetUnique(body, columns, show, i, i');
      }
    } else {
      assert !InjectionFails(body, columns, show, |records|);
    }
  }

  /** Injecting the converted `tableData` fails: null records meet a
      target table, or the records make the first target table fail. */
  ghost predicate TableDataFails(body: seq<Block>, columns: seq<Column>, show: Paragraph -> string,
                                 records: Option<seq<map<string, string>>>)
  {
    match records
    case None => exists i :: IsTarget(body, i, columns, show)
    case Some(rs) => InjectionFails(body, columns, show, |rs|)
  }

  /** Generation fails exactly when table data is injected and the
      injection fails: null records with a target table present, or a first
      target table that is empty with records to add, or has one data row
      and at least four records. */
  lemma GenerateFailsExactlyOnInjection(doc: Document, data: map<string, Value>, tableInclude: bool,
                                        records: Option<seq<map<string, string>>>, columns: seq<Column>,
                                        show: Paragraph -> string,
                                        substitute: (Document, map<string, string>) -> Document,
                                        order: seq<string>)
    requires ListsOnce(order, ImageValues(data).Keys)
    ensures Generate(doc, data, tableInclude, records, columns, show, substitute, order).Failure? <==>
      tableInclude && TableDataFails(Prepare(doc, data, substitute, order).doc.body, columns, show, records)
  {
    if records.Some? {
      InjectRowsFailsIff(Prepare(doc, data, substitute, order).doc, columns, records.value, show);
    }
  }
}

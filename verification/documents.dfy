/** The word-processing document tree that report generation fills in.

    The body is a sequence of blocks. A block is a paragraph, a table, or a
    container whose paragraphs are not themselves children of the body (a
    content control, say). A table is a sequence of rows, a row a sequence of
    cells, and a cell a sequence of paragraphs. A paragraph holds runs and
    other children, and a run holds text nodes, drawings and other items. */
module Documents {
  import opened Results

  /** Object identity of a text node. Nodes of the loaded template carry a
      number; nodes built while filling the template are `Created`. */
  datatype NodeId = Loaded(n: nat) | Created

  datatype RunItem =
    /** A `w:t` text node. */
    | Text(id: NodeId, value: string)
    /** An inline picture; its size is the document's extent for this image key. */
    | Drawing(image: string)
    /** Tabs, breaks, deleted or field text, existing pictures and the like. */
    | OtherRunItem

  datatype ParagraphChild =
    | Run(items: seq<RunItem>)
    /** Bookmarks, hyperlinks, proofing marks and the like. */
    | OtherChild

  datatype Justification =
    | Left | Center | Right | Both | Start | End | Distribute
    | NumTab | HighKashida | LowKashida | MediumKashida | ThaiDistribute

  datatype ParagraphProperties = ParagraphProperties(jc: Option<Justification>)

  datatype Paragraph = Paragraph(pPr: Option<ParagraphProperties>, content: seq<ParagraphChild>)

  /** Cell properties; `tcW` is the preferred cell width in twips. */
  datatype CellProperties = CellProperties(tcW: Option<int>)

  datatype Cell = Cell(tcPr: Option<CellProperties>, paragraphs: seq<Paragraph>)

  datatype Row = Row(cells: seq<Cell>)

  datatype Table = Table(rows: seq<Row>)

  datatype Block =
    | Para(p: Paragraph)
    | Tbl(t: Table)
    | Container(paragraphs: seq<Paragraph>)

  /** Width and height of an inline picture in EMU. */
  datatype Extent = Extent(cx: int, cy: int)

  /** A document: its body and, for every image key that has been placed,
      the extent of the one inline picture shared by all its drawings. */
  datatype Document = Document(body: seq<Block>, extents: map<string, Extent>)

  /** Concatenation of a sequence of sequences. */
  function Flatten<T>(xss: seq<seq<T>>): seq<T>
  {
    if xss == [] then [] else xss[0] + Flatten(xss[1..])
  }

  lemma FlattenOne<T>(xss: seq<seq<T>>)
    requires |xss| == 1
    ensures Flatten(xss) == xss[0]
  {
    assert xss[1..] == [];
  }

  lemma {:induction false} FlattenMember<T>(xss: seq<seq<T>>, x: T)
    ensures x in Flatten(xss) <==> exists i :: 0 <= i < |xss| && x in xss[i]
  {
    if xss != [] {
      FlattenMember(xss[1..], x);
      if x in Flatten(xss[1..]) {
        var i :| 0 <= i < |xss[1..]| && x in xss[1..][i];
        assert x in xss[i + 1];
      }
      if exists i :: 0 <= i < |xss| && x in xss[i] {
        var i :| 0 <= i < |xss| && x in xss[i];
        if i > 0 {
          assert x in xss[1..][i - 1];
        }
      }
    }
  }

  /** The concatenated value of the text nodes among a run's items. */
  function RunText(items: seq<RunItem>): string
  {
    if items == [] then ""
    else (if items[0].Text? then items[0].value else "") + RunText(items[1..])
  }

  /** The concatenated text of all runs directly inside a paragraph. */
  function ChildrenText(content: seq<ParagraphChild>): string
  {
    if content == [] then ""
    else (if content[0].Run? then RunText(content[0].items) else "") + ChildrenText(content[1..])
  }

  function ParagraphText(p: Paragraph): string
  {
    ChildrenText(p.content)
  }

  /** Whether the text node `id` is an item of a run directly inside `p`. */
  predicate HasNode(p: Paragraph, id: NodeId)
  {
    exists i, j ::
      && 0 <= i < |p.content|
      && p.content[i].Run?
      && 0 <= j < |p.content[i].items|
      && p.content[i].items[j].Text?
      && p.content[i].items[j].id == id
  }

  /** Whether `p` holds a text node `id` whose value is exactly `value`. */
  ghost predicate HasText(p: Paragraph, id: NodeId, value: string)
  {
    exists i, j ::
      && 0 <= i < |p.content|
      && p.content[i].Run?
      && 0 <= j < |p.content[i].items|
      && p.content[i].items[j] == Text(id, value)
  }

  /** A paragraph with a text node `Text(id, value)` holds the node `id`,
      and is not text-free. */
  lemma TextIsNode(p: Paragraph, id: NodeId, value: string)
    ensures HasText(p, id, value) ==> HasNode(p, id) && !TextFree(p)
  {
    if HasText(p, id, value) {
      var i, j :| 0 <= i < |p.content| && p.content[i].Run? && 0 <= j < |p.content[i].items|
        && p.content[i].items[j] == Text(id, value);
      assert p.content[i].items[j].Text?;
    }
  }

  /** The paragraphs of a table's cells, row by row and cell by cell. */
  function TableParagraphs(t: Table): seq<Paragraph>
  {
    Flatten(seq(|t.rows|, r requires 0 <= r < |t.rows| =>
      Flatten(seq(|t.rows[r].cells|, c requires 0 <= c < |t.rows[r].cells| =>
        t.rows[r].cells[c].paragraphs))))
  }

  /** Whether `p` is a paragraph of some cell of `t`. */
  ghost predicate InTableCell(t: Table, p: Paragraph)
  {
    exists r, c :: 0 <= r < |t.rows| && 0 <= c < |t.rows[r].cells| && p in t.rows[r].cells[c].paragraphs
  }

  lemma TableParagraphsMember(t: Table, p: Paragraph)
    ensures p in TableParagraphs(t) <==> InTableCell(t, p)
  {
    var rowsOf := seq(|t.rows|, r requires 0 <= r < |t.rows| =>
      Flatten(seq(|t.rows[r].cells|, c requires 0 <= c < |t.rows[r].cells| =>
        t.rows[r].cells[c].paragraphs)));
    FlattenMember(rowsOf, p);
    forall r | 0 <= r < |t.rows|
      ensures p in rowsOf[r] <==> exists c :: 0 <= c < |t.rows[r].cells| && p in t.rows[r].cells[c].paragraphs
    {
      var cellsOf := seq(|t.rows[r].cells|, c requires 0 <= c < |t.rows[r].cells| =>
        t.rows[r].cells[c].paragraphs);
      assert rowsOf[r] == Flatten(cellsOf);
      FlattenMember(cellsOf, p);
      assert forall c :: 0 <= c < |cellsOf| ==> cellsOf[c] == t.rows[r].cells[c].paragraphs;
    }
  }

  /** Every paragraph of a block, wherever it sits inside the block. */
  function BlockParagraphs(b: Block): seq<Paragraph>
  {
    match b
    case Para(p) => [p]
    case Tbl(t) => TableParagraphs(t)
    case Container(ps) => ps
  }

  /** Every paragraph of the body, in document order. */
  function AllParagraphs(body: seq<Block>): seq<Paragraph>
  {
    Flatten(seq(|body|, i requires 0 <= i < |body| => BlockParagraphs(body[i])))
  }

  // ---------------------------------------------------------------------
  // Paragraph positions and text-node identity
  // ---------------------------------------------------------------------

  /** Where a paragraph sits: directly in the body, in cell `cell` of row
      `row` of a top-level table, or inside a container. */
  datatype ParaPos =
    | Top(block: nat)
    | InCell(block: nat, row: nat, cell: nat, index: nat)
    | InContainer(block: nat, index: nat)

  predicate ValidParaPos(body: seq<Block>, pos: ParaPos)
  {
    match pos
    case Top(b) => b < |body| && body[b].Para?
    case InCell(b, r, c, i) =>
      && b < |body| && body[b].Tbl?
      && r < |body[b].t.rows|
      && c < |body[b].t.rows[r].cells|
      && i < |body[b].t.rows[r].cells[c].paragraphs|
    case InContainer(b, i) => b < |body| && body[b].Container? && i < |body[b].paragraphs|
  }

  function ParaAt(body: seq<Block>, pos: ParaPos): Paragraph
    requires ValidParaPos(body, pos)
  {
    match pos
    case Top(b) => body[b].p
    case InCell(b, r, c, i) => body[b].t.rows[r].cells[c].paragraphs[i]
    case InContainer(b, i) => body[b].paragraphs[i]
  }

  /** The paragraph at `pos` holds the text node `id`. */
  predicate HeldAt(body: seq<Block>, pos: ParaPos, id: NodeId)
  {
    ValidParaPos(body, pos) && HasNode(ParaAt(body, pos), id)
  }

  /** Text nodes are objects: a node has one parent paragraph, so no two
      paragraph positions hold a node with the same id. */
  ghost predicate DistinctIds(body: seq<Block>)
  {
    forall p, q, id | HeldAt(body, p, id) && HeldAt(body, q, id) :: p == q
  }

  /** The paragraph's runs hold no text node. */
  predicate TextFree(p: Paragraph)
  {
    forall i, j | 0 <= i < |p.content| && p.content[i].Run? && 0 <= j < |p.content[i].items| ::
      !p.content[i].items[j].Text?
  }

  /** The paragraphs listed by `AllParagraphs` are exactly those at the
      valid positions. */
  lemma AllParagraphsArePositioned(body: seq<Block>, p: Paragraph)
    ensures p in AllParagraphs(body) <==> exists pos :: ValidParaPos(body, pos) && ParaAt(body, pos) == p
  {
    if p in AllParagraphs(body) {
      var pos := PositionOf(body, p);
    }
    if exists pos :: ValidParaPos(body, pos) && ParaAt(body, pos) == p {
      var pos :| ValidParaPos(body, pos) && ParaAt(body, pos) == p;
      PositionedIsListed(body, pos);
    }
  }

  lemma PositionOf(body: seq<Block>, p: Paragraph) returns (pos: ParaPos)
    requires p in AllParagraphs(body)
    ensures ValidParaPos(body, pos) && ParaAt(body, pos) == p
  {
    var xss := seq(|body|, i requires 0 <= i < |body| => BlockParagraphs(body[i]));
    FlattenMember(xss, p);
    var b :| 0 <= b < |xss| && p in xss[b];
    assert p in BlockParagraphs(body[b]);
    match body[b]
    case Para(q) =>
      pos := Top(b);
    case Tbl(t) =>
      TableParagraphsMember(t, p);
      var r, c :| 0 <= r < |t.rows| && 0 <= c < |t.rows[r].cells| && p in t.rows[r].cells[c].paragraphs;
      var i :| 0 <= i < |t.rows[r].cells[c].paragraphs| && t.rows[r].cells[c].paragraphs[i] == p;
      pos := InCell(b, r, c, i);
    case Container(ps) =>
      var i :| 0 <= i < |ps| && ps[i] == p;
      pos := InContainer(b, i);
  }

  lemma PositionedIsListed(body: seq<Block>, pos: ParaPos)
    requires ValidParaPos(body, pos)
    ensures ParaAt(body, pos) in AllParagraphs(body)
  {
    var p := ParaAt(body, pos);
    var xss := seq(|body|, i requires 0 <= i < |body| => BlockParagraphs(body[i]));
    assert xss[pos.block] == BlockParagraphs(body[pos.block]);
    if pos.InCell? {
      var t := body[pos.block].t;
      assert p in t.rows[pos.row].cells[pos.cell].paragraphs;
      TableParagraphsMember(t, p);
    }
    assert p in xss[pos.block];
    FlattenMember(xss, p);
  }

  /** A body holding one table of one cell lists that cell's paragraphs. */
  lemma SingleCellParagraphs(c: Cell)
    ensures AllParagraphs([Tbl(Table([Row([c])]))]) == c.paragraphs
  {
    var t := Table([Row([c])]);
    var inner := seq(|t.rows[0].cells|, j requires 0 <= j < |t.rows[0].cells| => t.rows[0].cells[j].paragraphs);
    FlattenOne(inner);
    var outer := seq(|t.rows|, r requires 0 <= r < |t.rows| =>
      Flatten(seq(|t.rows[r].cells|, j requires 0 <= j < |t.rows[r].cells| => t.rows[r].cells[j].paragraphs)));
    assert outer[0] == Flatten(inner);
    FlattenOne(outer);
    assert TableParagraphs(t) == c.paragraphs;
    var blocks := seq(1, i requires 0 <= i < 1 => BlockParagraphs([Tbl(t)][i]));
    FlattenOne(blocks);
  }
}

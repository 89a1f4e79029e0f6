/** Image placement: every text node whose value is exactly an image key is
    replaced, together with its paragraph, by a paragraph holding one inline
    picture (ReportGenerationService.java, lines 109-113 and 126-239). */
module Images {
  import opened Results
  import opened Documents
  import opened Values
  import Placeholders

  const EmuPerPixel: int := 9525
  /** Size of a picture that replaces a top-level paragraph. */
  const FreeWidthPx: int := 200
  const FreeHeightPx: int := 100
  /** How much narrower than its cell a picture in a cell is drawn. */
  const CellInsetPx: int := 10

  // ---------------------------------------------------------------------
  // Units
  // ---------------------------------------------------------------------

  /** Java's `long` division, which truncates toward zero. */
  function JavaDiv(a: int, b: int): (q: int)
    requires b > 0
    ensures a >= 0 ==> q * b <= a < q * b + b
    ensures a < 0 ==> q * b - b < a <= q * b
  {
    if a >= 0 then a / b else -((-a) / b)
  }

  /** `getCellWidth`: the cell's preferred width in pixels, `twips * 96 / 1440`,
      or 0 when the cell has no properties or no width. */
  function CellWidthPx(c: Cell): (px: int)
    ensures c.tcPr.None? || c.tcPr.value.tcW.None? ==> px == 0
    ensures c.tcPr.Some? && c.tcPr.value.tcW.Some? && c.tcPr.value.tcW.value >= 0 ==>
      px * 15 <= c.tcPr.value.tcW.value < px * 15 + 15
    ensures c.tcPr.Some? && c.tcPr.value.tcW.Some? && c.tcPr.value.tcW.value < 0 ==>
      px * 15 - 15 < c.tcPr.value.tcW.value <= px * 15
  {
    if c.tcPr.Some? && c.tcPr.value.tcW.Some? then
      JavaDiv(c.tcPr.value.tcW.value * 96, 1440)
    else 0
  }

  /** The extent, in EMU, of a picture `widthPx` by `heightPx` pixels. */
  function PixelExtent(widthPx: int, heightPx: int): (e: Extent)
    ensures e.cx % EmuPerPixel == 0 && e.cx / EmuPerPixel == widthPx
    ensures e.cy % EmuPerPixel == 0 && e.cy / EmuPerPixel == heightPx
  {
    Extent(widthPx * EmuPerPixel, heightPx * EmuPerPixel)
  }

  /** The extent given to a picture that replaces a top-level paragraph. */
  function FreeExtent(): Extent
  {
    PixelExtent(FreeWidthPx, FreeHeightPx)
  }

  /** The extent given to a picture placed in cell `c`: width
      `cellWidth - 10` and height `cellWidth` pixels. */
  function CellExtent(c: Cell): Extent
  {
    PixelExtent(CellWidthPx(c) - CellInsetPx, CellWidthPx(c))
  }

  /** A free picture is 1905000 by 952500 EMU; a picture in a cell of
      `w` twips is `(w*96/1440 - 10) * 9525` by `w*96/1440 * 9525` EMU. */
  lemma ExtentsInEmu(c: Cell)
    ensures FreeExtent() == Extent(1905000, 952500)
    ensures c.tcPr.Some? && c.tcPr.value.tcW.Some? && c.tcPr.value.tcW.value >= 0 ==>
      CellExtent(c) == Extent((c.tcPr.value.tcW.value * 96 / 1440 - 10) * 9525,
                              c.tcPr.value.tcW.value * 96 / 1440 * 9525)
  {
  }

  /** A cell without a width makes a picture of negative width. */
  lemma UnsizedCellGivesNegativeWidth(c: Cell)
    requires c.tcPr.None? || c.tcPr.value.tcW.None?
    ensures CellExtent(c) == Extent(-95250, 0)
  {
  }

  /** `newImageParagraph`: one run holding one drawing of the key's picture.
      It holds no text node, so no later lookup matches it. */
  function ImageParagraph(key: string): (p: Paragraph)
    ensures TextFree(p) && ParagraphText(p) == ""
    ensures forall id :: !HasNode(p, id)
  {
    var p := Paragraph(None, [Run([Drawing(key)])]);
    assert RunText(p.content[0].items) == "" + RunText([]);
    assert ChildrenText(p.content) == RunText(p.content[0].items) + ChildrenText([]);
    p
  }

  // ---------------------------------------------------------------------
  // Finding the matching text nodes
  // ---------------------------------------------------------------------

  /** The ids of a run's text nodes whose value is exactly `key`. */
  function RunMatches(items: seq<RunItem>, key: string): (ids: seq<NodeId>)
    ensures forall id :: id in ids <==> Text(id, key) in items
  {
    if items == [] then []
    else (if items[0].Text? && items[0].value == key then [items[0].id] else []) + RunMatches(items[1..], key)
  }

  function ChildrenMatches(content: seq<ParagraphChild>, key: string): (ids: seq<NodeId>)
    ensures forall id :: id in ids <==>
      exists i :: 0 <= i < |content| && content[i].Run? && Text(id, key) in content[i].items
  {
    if content == [] then []
    else
      var rest := ChildrenMatches(content[1..], key);
      assert forall i :: 1 <= i < |content| ==> content[i] == content[1..][i - 1];
      (if content[0].Run? then RunMatches(content[0].items, key) else []) + rest
  }

  /** The ids of a paragraph's text nodes whose value is exactly `key`. */
  function ParagraphMatches(p: Paragraph, key: string): seq<NodeId>
  {
    ChildrenMatches(p.content, key)
  }

  lemma ParagraphMatchesIff(p: Paragraph, key: string, id: NodeId)
    ensures id in ParagraphMatches(p, key) <==> HasText(p, id, key)
  {
    if id in ParagraphMatches(p, key) {
      var i :| 0 <= i < |p.content| && p.content[i].Run? && Text(id, key) in p.content[i].items;
      var j :| 0 <= j < |p.content[i].items| && p.content[i].items[j] == Text(id, key);
    }
  }

  /** The matches of the paragraphs `ps`, paragraph by paragraph. */
  function MatchesIn(ps: seq<Paragraph>, key: string): (ids: seq<NodeId>)
    ensures forall id :: id in ids <==> exists p :: p in ps && HasText(p, id, key)
  {
    if ps == [] then []
    else
      var rest := MatchesIn(ps[1..], key);
      forall id ensures id in ParagraphMatches(ps[0], key) <==> HasText(ps[0], id, key) {
        ParagraphMatchesIff(ps[0], key, id);
      }
      assert forall p :: p in ps <==> p == ps[0] || p in ps[1..];
      ParagraphMatches(ps[0], key) + rest
  }

  /** The lookup of the text nodes whose value equals the key exactly as
      stored (the key is not wrapped in `${...}`), in document order: it
      finds every such node of every paragraph, inside containers and cells
      included, and nothing else. */
  function ImageMatches(body: seq<Block>, key: string): (ids: seq<NodeId>)
    ensures forall id :: id in ids <==> exists p :: p in AllParagraphs(body) && HasText(p, id, key)
  {
    MatchesIn(AllParagraphs(body), key)
  }

  /** A node holding the wrapped placeholder `${key}` is not a match for `key`. */
  lemma WrappedPlaceholderIsNotMatched(pPr: Option<ParagraphProperties>, id: NodeId, key: string)
    ensures ParagraphMatches(Paragraph(pPr, [Run([Text(id, Placeholders.Wrap(key))])]), key) == []
  {
    var content := [Run([Text(id, Placeholders.Wrap(key))])];
    assert |Placeholders.Wrap(key)| != |key|;
    assert RunMatches(content[0].items, key) == [];
    assert ChildrenMatches(content[1..], key) == [];
  }

  // ---------------------------------------------------------------------
  // Replacing a top-level paragraph
  // ---------------------------------------------------------------------

  /** Block `i` of the body is a paragraph holding text node `id`. */
  predicate ParagraphAt(body: seq<Block>, i: int, id: NodeId)
  {
    0 <= i < |body| && body[i].Para? && HasNode(body[i].p, id)
  }

  /** `indexOf` of the node's paragraph among the blocks `body[k..]`. */
  function BodyIndex(body: seq<Block>, id: NodeId, k: nat): (r: Option<nat>)
    requires k <= |body|
    ensures r.Some? ==>
      k <= r.value && ParagraphAt(body, r.value, id) && forall j :: k <= j < r.value ==> !ParagraphAt(body, j, id)
    ensures r.None? ==> forall j :: k <= j < |body| ==> !ParagraphAt(body, j, id)
    decreases |body| - k
  {
    if k == |body| then None
    else if ParagraphAt(body, k, id) then Some(k)
    else BodyIndex(body, id, k + 1)
  }

  /** `replaceContent`: the top-level paragraph holding the node becomes a
      picture paragraph; the flag says whether there was one. */
  function ReplaceContent(body: seq<Block>, id: NodeId, key: string): (r: (seq<Block>, bool))
    ensures |r.0| == |body|
    ensures r.1 ==> exists i ::
      && ParagraphAt(body, i, id)
      && (forall j :: 0 <= j < i ==> !ParagraphAt(body, j, id))
      && r.0 == body[i := Para(ImageParagraph(key))]
    ensures !r.1 ==> r.0 == body && forall j :: 0 <= j < |body| ==> !ParagraphAt(body, j, id)
  {
    match BodyIndex(body, id, 0)
    case Some(i) => (body[i := Para(ImageParagraph(key))], true)
    case None => (body, false)
  }

  // ---------------------------------------------------------------------
  // Replacing a paragraph in a table cell
  // ---------------------------------------------------------------------

  predicate CellParagraphAt(ps: seq<Paragraph>, i: int, id: NodeId)
  {
    0 <= i < |ps| && HasNode(ps[i], id)
  }

  function CellIndex(ps: seq<Paragraph>, id: NodeId, k: nat): (r: Option<nat>)
    requires k <= |ps|
    ensures r.Some? ==>
      k <= r.value && CellParagraphAt(ps, r.value, id) && forall j :: k <= j < r.value ==> !CellParagraphAt(ps, j, id)
    ensures r.None? ==> forall j :: k <= j < |ps| ==> !CellParagraphAt(ps, j, id)
    decreases |ps| - k
  {
    if k == |ps| then None
    else if CellParagraphAt(ps, k, id) then Some(k)
    else CellIndex(ps, id, k + 1)
  }

  /** `replaceContentInTableCell`: the first paragraph of the cell whose runs
      hold the node becomes a picture paragraph; the flag says whether the
      cell had one. */
  function ReplaceInCell(c: Cell, id: NodeId, key: string): (r: (Cell, bool))
    ensures r.0.tcPr == c.tcPr && |r.0.paragraphs| == |c.paragraphs|
    ensures r.1 <==> CellHolds(c, id)
    ensures r.1 ==> exists i ::
      && CellParagraphAt(c.paragraphs, i, id)
      && (forall j :: 0 <= j < i ==> !CellParagraphAt(c.paragraphs, j, id))
      && r.0.paragraphs == c.paragraphs[i := ImageParagraph(key)]
    ensures !r.1 ==> r.0 == c && forall j :: 0 <= j < |c.paragraphs| ==> !CellParagraphAt(c.paragraphs, j, id)
  {
    match CellIndex(c.paragraphs, id, 0)
    case Some(i) => (Cell(c.tcPr, c.paragraphs[i := ImageParagraph(key)]), true)
    case None => (c, false)
  }

  // ---------------------------------------------------------------------
  // Which cell holds a node
  // ---------------------------------------------------------------------

  datatype CellPos = CellPos(block: nat, row: nat, cell: nat)

  predicate ValidPos(body: seq<Block>, pos: CellPos)
  {
    && pos.block < |body| && body[pos.block].Tbl?
    && pos.row < |body[pos.block].t.rows|
    && pos.cell < |body[pos.block].t.rows[pos.row].cells|
  }

  function CellAt(body: seq<Block>, pos: CellPos): Cell
    requires ValidPos(body, pos)
  {
    body[pos.block].t.rows[pos.row].cells[pos.cell]
  }

  /** Whether some paragraph of cell `c` holds the node. */
  predicate CellHolds(c: Cell, id: NodeId)
  {
    exists i :: 0 <= i < |c.paragraphs| && CellParagraphAt(c.paragraphs, i, id)
  }

  /** Whether the node sits in a paragraph of some cell of a top-level table. */
  ghost predicate InSomeCell(body: seq<Block>, id: NodeId)
  {
    exists pos :: ValidPos(body, pos) && CellHolds(CellAt(body, pos), id)
  }

  function FindInRow(cells: seq<Cell>, id: NodeId, c: nat): (r: Option<nat>)
    requires c <= |cells|
    ensures r.Some? ==> c <= r.value < |cells| && CellHolds(cells[r.value], id)
    ensures r.Some? ==> forall k :: c <= k < r.value ==> !CellHolds(cells[k], id)
    ensures r.None? ==> forall k :: c <= k < |cells| ==> !CellHolds(cells[k], id)
    decreases |cells| - c
  {
    if c == |cells| then None
    else if CellHolds(cells[c], id) then Some(c)
    else FindInRow(cells, id, c + 1)
  }

  function FindInTable(rows: seq<Row>, id: NodeId, r: nat): (res: Option<(nat, nat)>)
    requires r <= |rows|
    ensures res.Some? ==>
      r <= res.value.0 < |rows| && res.value.1 < |rows[res.value.0].cells| && CellHolds(rows[res.value.0].cells[res.value.1], id)
    ensures res.Some? ==>
      (forall k, c :: r <= k < res.value.0 && 0 <= c < |rows[k].cells| ==> !CellHolds(rows[k].cells[c], id)) &&
      (forall c :: 0 <= c < res.value.1 ==> !CellHolds(rows[res.value.0].cells[c], id))
    ensures res.None? ==> forall k, c :: r <= k < |rows| && 0 <= c < |rows[k].cells| ==> !CellHolds(rows[k].cells[c], id)
    decreases |rows| - r
  {
    if r == |rows| then None
    else match FindInRow(rows[r].cells, id, 0)
      case Some(c) => Some((r, c))
      case None => FindInTable(rows, id, r + 1)
  }

  /** The first cell, in document order, of a top-level table holding the node. */
  function FindCell(body: seq<Block>, id: NodeId, b: nat): (res: Option<CellPos>)
    requires b <= |body|
    ensures res.Some? ==> b <= res.value.block && ValidPos(body, res.value) && CellHolds(CellAt(body, res.value), id)
    ensures res.None? ==> forall pos :: ValidPos(body, pos) && b <= pos.block ==> !CellHolds(CellAt(body, pos), id)
    decreases |body| - b
  {
    if b == |body| then None
    else if body[b].Tbl? then
      match FindInTable(body[b].t.rows, id, 0)
      case Some((r, c)) => Some(CellPos(b, r, c))
      case None => FindCell(body, id, b + 1)
    else FindCell(body, id, b + 1)
  }

  /** The body with the cell at `pos` replaced; nothing else changes. */
  function SetCell(body: seq<Block>, pos: CellPos, c: Cell): (r: seq<Block>)
    requires ValidPos(body, pos)
    ensures |r| == |body| && ValidPos(r, pos) && CellAt(r, pos) == c
    ensures forall j :: 0 <= j < |body| && j != pos.block ==> r[j] == body[j]
    ensures |r[pos.block].t.rows| == |body[pos.block].t.rows|
    ensures forall k :: 0 <= k < |body[pos.block].t.rows| && k != pos.row ==>
      r[pos.block].t.rows[k] == body[pos.block].t.rows[k]
    ensures |r[pos.block].t.rows[pos.row].cells| == |body[pos.block].t.rows[pos.row].cells|
    ensures forall k :: 0 <= k < |body[pos.block].t.rows[pos.row].cells| && k != pos.cell ==>
      r[pos.block].t.rows[pos.row].cells[k] == body[pos.block].t.rows[pos.row].cells[k]
  {
    var rows := body[pos.block].t.rows;
    var cells := rows[pos.row].cells;
    body[pos.block := Tbl(Table(rows[pos.row := Row(cells[pos.cell := c])]))]
  }

  // ---------------------------------------------------------------------
  // Placing one key's picture
  // ---------------------------------------------------------------------

  /** One iteration of the loop over the matched nodes: a node in a table
      cell replaces its cell paragraph, any other node replaces its
      top-level paragraph. The key's shared extent is set only when a
      paragraph is replaced. */
  function PlaceOne(doc: Document, id: NodeId, key: string): (r: Document)
    ensures |r.body| == |doc.body|
    ensures forall k :: k != key ==> (k in r.extents <==> k in doc.extents)
    ensures forall k | k != key && k in doc.extents :: r.extents[k] == doc.extents[k]
    ensures !InSomeCell(doc.body, id) && (forall j :: 0 <= j < |doc.body| ==> !ParagraphAt(doc.body, j, id)) ==>
      r == doc
    ensures !InSomeCell(doc.body, id) && (exists j :: ParagraphAt(doc.body, j, id)) ==>
      && r.extents == doc.extents[key := FreeExtent()]
      && exists i ::
        && ParagraphAt(doc.body, i, id)
        && (forall j :: 0 <= j < i ==> !ParagraphAt(doc.body, j, id))
        && r.body == doc.body[i := Para(ImageParagraph(key))]
    ensures InSomeCell(doc.body, id) ==> exists pos ::
      && ValidPos(doc.body, pos)
      && CellHolds(CellAt(doc.body, pos), id)
      && r.extents == doc.extents[key := CellExtent(CellAt(doc.body, pos))]
      && r.body == SetCell(doc.body, pos, ReplaceInCell(CellAt(doc.body, pos), id, key).0)
  {
    match FindCell(doc.body, id, 0)
    case Some(pos) =>
      var cell := CellAt(doc.body, pos);
      var replaced := ReplaceInCell(cell, id, key);
      Document(SetCell(doc.body, pos, replaced.0),
               if replaced.1 then doc.extents[key := CellExtent(cell)] else doc.extents)
    case None =>
      var replaced := ReplaceContent(doc.body, id, key);
      if replaced.1 then Document(replaced.0, doc.extents[key := FreeExtent()])
      else doc
  }

  /** The loop over the matched nodes, in order, against the document as
      the earlier iterations left it. */
  function PlaceAll(doc: Document, ids: seq<NodeId>, key: string): (r: Document)
    ensures |r.body| == |doc.body|
    ensures forall k :: k != key ==> (k in r.extents <==> k in doc.extents)
    ensures forall k | k != key && k in doc.extents :: r.extents[k] == doc.extents[k]
    decreases |ids|
  {
    if ids == [] then doc else PlaceAll(PlaceOne(doc, ids[0], key), ids[1..], key)
  }

  /** The nodes are handled one after the other, so the last handled node
      has the last word on the key's shared extent. */
  lemma {:induction false} PlaceAllAppend(doc: Document, ids: seq<NodeId>, id: NodeId, key: string)
    ensures PlaceAll(doc, ids + [id], key) == PlaceOne(PlaceAll(doc, ids, key), id, key)
    decreases |ids|
  {
    if ids != [] {
      assert (ids + [id])[1..] == ids[1..] + [id];
      PlaceAllAppend(PlaceOne(doc, ids[0], key), ids[1..], id, key);
    }
  }

  /** `addImageToPlaceholder`: an undecodable resource changes nothing;
      otherwise every matching node is handled in document order. */
  function AddImage(doc: Document, key: string, res: Resource): (r: Document)
    ensures |r.body| == |doc.body|
    ensures forall k :: k != key ==> (k in r.extents <==> k in doc.extents)
    ensures forall k | k != key && k in doc.extents :: r.extents[k] == doc.extents[k]
    ensures !res.decodable ==> r == doc
    ensures ImageMatches(doc.body, key) == [] ==> r == doc
  {
    if !res.decodable then doc else PlaceAll(doc, ImageMatches(doc.body, key), key)
  }

  /** `order` lists each of `keys` exactly once, as iterating a map does. */
  predicate ListsOnce(order: seq<string>, keys: set<string>)
  {
    && (forall i, j | 0 <= i < j < |order| :: order[i] != order[j])
    && (forall k | k in order :: k in keys)
    && (forall k | k in keys :: k in order)
  }

  /** The loop of `replaceImagePlaceholders` over the keys `order`, each
      handled on the document the earlier keys left. */
  function PlaceKeys(doc: Document, images: map<string, Resource>, order: seq<string>): (r: Document)
    ensures |r.body| == |doc.body|
    ensures forall k :: k !in order ==> (k in r.extents <==> k in doc.extents)
    ensures forall k | k !in order && k in doc.extents :: r.extents[k] == doc.extents[k]
    decreases |order|
  {
    if order == [] then doc
    else
      var next := if order[0] in images then AddImage(doc, order[0], images[order[0]]) else doc;
      PlaceKeys(next, images, order[1..])
  }

  /** `replaceImagePlaceholders`: each key of the image map once, in the
      map's iteration order `order`. */
  function ReplaceImages(doc: Document, images: map<string, Resource>, order: seq<string>): (r: Document)
    requires ListsOnce(order, images.Keys)
    ensures |r.body| == |doc.body|
    ensures forall k :: k !in images ==> (k in r.extents <==> k in doc.extents)
    ensures forall k | k !in images && k in doc.extents :: r.extents[k] == doc.extents[k]
  {
    PlaceKeys(doc, images, order)
  }

  // ---------------------------------------------------------------------
  // What placement does to the paragraphs
  // ---------------------------------------------------------------------

  /** The image path replaces paragraphs directly in the body or in cells of
      top-level tables; a paragraph inside a container is never replaced. */
  predicate Replaceable(pos: ParaPos)
  {
    !pos.InContainer?
  }

  /** Some replaceable paragraph holds the text node `id`. */
  ghost predicate InScope(body: seq<Block>, id: NodeId)
  {
    exists pos :: Replaceable(pos) && HeldAt(body, pos, id)
  }

  /** Some replaceable paragraph holds a text node whose value is `key`. */
  ghost predicate HoldsKeyAt(body: seq<Block>, pos: ParaPos, key: string)
  {
    Replaceable(pos) && ValidParaPos(body, pos) && exists id :: HasText(ParaAt(body, pos), id, key)
  }

  /** `after` has the paragraph positions of `before`, and each of its
      paragraphs is the one `before` has there or holds no text. */
  ghost predicate OnlyPictured(before: seq<Block>, after: seq<Block>)
  {
    && (forall pos :: ValidParaPos(after, pos) <==> ValidParaPos(before, pos))
    && (forall pos | ValidParaPos(after, pos) :: ParaAt(after, pos) == ParaAt(before, pos) || TextFree(ParaAt(after, pos)))
  }

  lemma OnlyPicturedTrans(a: seq<Block>, b: seq<Block>, c: seq<Block>)
    requires OnlyPictured(a, b) && OnlyPictured(b, c)
    ensures OnlyPictured(a, c)
  {
    forall pos | ValidParaPos(c, pos) ensures ParaAt(c, pos) == ParaAt(a, pos) || TextFree(ParaAt(c, pos)) {
      assert ValidParaPos(b, pos);
    }
  }

  /** Picturing paragraphs never gives a paragraph a text node it lacked,
      so distinct ids stay distinct. */
  lemma OnlyPicturedHeld(before: seq<Block>, after: seq<Block>)
    requires OnlyPictured(before, after)
    ensures forall pos, id | HeldAt(after, pos, id) :: HeldAt(before, pos, id)
    ensures forall pos, id, v | ValidParaPos(after, pos) && HasText(ParaAt(after, pos), id, v) ::
      ParaAt(before, pos) == ParaAt(after, pos)
    ensures DistinctIds(before) ==> DistinctIds(after)
  {
    forall pos, id | HeldAt(after, pos, id) ensures HeldAt(before, pos, id) {
      var p := ParaAt(after, pos);
      var i, j :| 0 <= i < |p.content| && p.content[i].Run? && 0 <= j < |p.content[i].items|
        && p.content[i].items[j].Text? && p.content[i].items[j].id == id;
    }
    forall pos, id, v | ValidParaPos(after, pos) && HasText(ParaAt(after, pos), id, v)
      ensures ParaAt(before, pos) == ParaAt(after, pos)
    {
      var p := ParaAt(after, pos);
      var i, j :| 0 <= i < |p.content| && p.content[i].Run? && 0 <= j < |p.content[i].items|
        && p.content[i].items[j] == Text(id, v);
    }
  }

  lemma OnlyPicturedRefl(body: seq<Block>)
    ensures OnlyPictured(body, body)
  {
  }

  /** Replacing top-level paragraph `i` by a text-free paragraph. */
  lemma TopPictured(body: seq<Block>, i: nat, p: Paragraph)
    requires i < |body| && body[i].Para? && TextFree(p)
    ensures OnlyPictured(body, body[i := Para(p)])
  {
    var after := body[i := Para(p)];
    forall pos ensures ValidParaPos(after, pos) <==> ValidParaPos(body, pos) {
      if pos.block != i {
        assert pos.block < |body| ==> after[pos.block] == body[pos.block];
      }
    }
  }

  /** Replacing a cell by one with the same number of paragraphs, each the
      old one or text-free. */
  lemma SetCellPictured(body: seq<Block>, pos: CellPos, c: Cell)
    requires ValidPos(body, pos)
    requires |c.paragraphs| == |CellAt(body, pos).paragraphs|
    requires forall k | 0 <= k < |c.paragraphs| :: c.paragraphs[k] == CellAt(body, pos).paragraphs[k] || TextFree(c.paragraphs[k])
    ensures OnlyPictured(body, SetCell(body, pos, c))
  {
    var after := SetCell(body, pos, c);
    forall q ensures ValidParaPos(after, q) <==> ValidParaPos(body, q) {
      if q.block != pos.block {
        assert q.block < |body| ==> after[q.block] == body[q.block];
      } else if q.InCell? && q.row < |body[pos.block].t.rows| {
        if q.row != pos.row {
          assert after[pos.block].t.rows[q.row] == body[pos.block].t.rows[q.row];
        } else if q.cell < |body[pos.block].t.rows[pos.row].cells| && q.cell != pos.cell {
          assert after[pos.block].t.rows[q.row].cells[q.cell] == body[pos.block].t.rows[q.row].cells[q.cell];
        }
      }
    }
    forall q | ValidParaPos(after, q) ensures ParaAt(after, q) == ParaAt(body, q) || TextFree(ParaAt(after, q)) {
      if q.block != pos.block {
        assert after[q.block] == body[q.block];
      } else if q.row != pos.row {
        assert after[pos.block].t.rows[q.row] == body[pos.block].t.rows[q.row];
      } else if q.cell != pos.cell {
        assert after[pos.block].t.rows[q.row].cells[q.cell] == body[pos.block].t.rows[q.row].cells[q.cell];
      } else {
        assert ParaAt(after, q) == c.paragraphs[q.index];
      }
    }
  }

  /** A replaceable paragraph holds the node exactly when a top-level
      paragraph or a paragraph of a top-level table's cell does. */
  lemma InScopeIff(body: seq<Block>, id: NodeId)
    ensures InScope(body, id) <==> InSomeCell(body, id) || exists j :: ParagraphAt(body, j, id)
  {
    if InScope(body, id) {
      var pos :| Replaceable(pos) && HeldAt(body, pos, id);
      if pos.Top? {
        assert ParagraphAt(body, pos.block, id);
      } else {
        var cpos := CellPos(pos.block, pos.row, pos.cell);
        assert ValidPos(body, cpos) && CellParagraphAt(CellAt(body, cpos).paragraphs, pos.index, id);
      }
    }
    if exists j :: ParagraphAt(body, j, id) {
      var j :| ParagraphAt(body, j, id);
      assert Replaceable(Top(j)) && HeldAt(body, Top(j), id);
    }
    if InSomeCell(body, id) {
      var cpos :| ValidPos(body, cpos) && CellHolds(CellAt(body, cpos), id);
      var i :| 0 <= i < |CellAt(body, cpos).paragraphs| && CellParagraphAt(CellAt(body, cpos).paragraphs, i, id);
      var pos := InCell(cpos.block, cpos.row, cpos.cell, i);
      assert Replaceable(pos) && HeldAt(body, pos, id);
    }
  }

  /** Replacing in a cell keeps each paragraph or makes it text-free. */
  lemma ReplaceInCellPictured(c: Cell, id: NodeId, key: string)
    ensures var c' := ReplaceInCell(c, id, key).0;
      |c'.paragraphs| == |c.paragraphs| &&
      forall k | 0 <= k < |c'.paragraphs| :: c'.paragraphs[k] == c.paragraphs[k] || TextFree(c'.paragraphs[k])
  {
  }

  /** Placing one node only pictures paragraphs, so it keeps ids distinct. */
  lemma PlaceOneKeepsDistinctIds(doc: Document, id: NodeId, key: string)
    ensures OnlyPictured(doc.body, PlaceOne(doc, id, key).body)
    ensures DistinctIds(doc.body) ==> DistinctIds(PlaceOne(doc, id, key).body)
  {
    var r := PlaceOne(doc, id, key);
    match FindCell(doc.body, id, 0) {
      case Some(cpos) =>
        var cell := CellAt(doc.body, cpos);
        var c' := ReplaceInCell(cell, id, key).0;
        assert r.body == SetCell(doc.body, cpos, c');
        ReplaceInCellPictured(cell, id, key);
        SetCellPictured(doc.body, cpos, c');
      case None =>
        match BodyIndex(doc.body, id, 0) {
          case Some(i) =>
            assert r.body == doc.body[i := Para(ImageParagraph(key))];
            TopPictured(doc.body, i, ImageParagraph(key));
          case None =>
            assert r == doc;
            OnlyPicturedRefl(doc.body);
        }
    }
    OnlyPicturedHeld(doc.body, r.body);
  }

  /** With distinct ids the node's own paragraph is the one replaced: after
      placing it, no replaceable paragraph holds the node. */
  lemma PlaceOneClears(doc: Document, id: NodeId, key: string)
    requires DistinctIds(doc.body)
    ensures forall pos | Replaceable(pos) :: !HeldAt(PlaceOne(doc, id, key).body, pos, id)
  {
    var r := PlaceOne(doc, id, key);
    PlaceOneKeepsDistinctIds(doc, id, key);
    OnlyPicturedHeld(doc.body, r.body);
    match FindCell(doc.body, id, 0)
    case Some(cpos) =>
      var cell := CellAt(doc.body, cpos);
      var i :| && CellParagraphAt(cell.paragraphs, i, id)
               && ReplaceInCell(cell, id, key).0.paragraphs == cell.paragraphs[i := ImageParagraph(key)];
      var home := InCell(cpos.block, cpos.row, cpos.cell, i);
      assert HeldAt(doc.body, home, id);
      assert ParaAt(r.body, home) == ImageParagraph(key);
    case None =>
      match BodyIndex(doc.body, id, 0)
      case Some(i) =>
        assert HeldAt(doc.body, Top(i), id);
        assert ParaAt(r.body, Top(i)) == ImageParagraph(key);
      case None =>
        forall pos | Replaceable(pos) ensures !HeldAt(doc.body, pos, id) {
          if pos.Top? {
            assert !ParagraphAt(doc.body, pos.block, id);
          } else if ValidParaPos(doc.body, pos) {
            var cpos := CellPos(pos.block, pos.row, pos.cell);
            assert ValidPos(doc.body, cpos);
            assert !CellHolds(CellAt(doc.body, cpos), id);
            assert !CellParagraphAt(CellAt(doc.body, cpos).paragraphs, pos.index, id);
          }
        }
  }

  /** Placing one node sets the key's extent exactly when a replaceable
      paragraph holds the node; otherwise nothing changes. */
  lemma PlaceOneExtent(doc: Document, id: NodeId, key: string)
    ensures key in PlaceOne(doc, id, key).extents <==> key in doc.extents || InScope(doc.body, id)
    ensures !InScope(doc.body, id) ==> PlaceOne(doc, id, key) == doc
  {
    InScopeIff(doc.body, id);
  }

  /** Some text node of `p` has the value `v`. */
  ghost predicate HoldsValue(p: Paragraph, v: string)
  {
    exists id :: HasText(p, id, v)
  }

  /** `q` is the picture of a key in `keys` whose text `p` held. */
  ghost predicate PictureOf(p: Paragraph, q: Paragraph, keys: set<string>)
  {
    exists k | k in keys :: q == ImageParagraph(k) && HoldsValue(p, k)
  }

  /** `after` has the paragraph positions of `before`, and each of its
      paragraphs is the one `before` has there, or the picture of a key in
      `keys` whose text that paragraph held. */
  ghost predicate PicturedFrom(before: seq<Block>, after: seq<Block>, keys: set<string>)
  {
    && (forall pos :: ValidParaPos(after, pos) <==> ValidParaPos(before, pos))
    && (forall pos | ValidParaPos(after, pos) ::
          ParaAt(after, pos) == ParaAt(before, pos) || PictureOf(ParaAt(before, pos), ParaAt(after, pos), keys))
  }

  /** One step of the loop: each paragraph is kept, or held node `id` and
      became the key's picture. */
  ghost predicate PicturedStep(before: seq<Block>, after: seq<Block>, id: NodeId, key: string)
  {
    && (forall pos :: ValidParaPos(after, pos) <==> ValidParaPos(before, pos))
    && (forall pos | ValidParaPos(after, pos) ::
          ParaAt(after, pos) == ParaAt(before, pos) || (ParaAt(after, pos) == ImageParagraph(key) && HeldAt(before, pos, id)))
  }

  /** A picture holds no text node, so it is never the source of another. */
  lemma PictureHoldsNoValue(k: string, v: string)
    ensures !HoldsValue(ImageParagraph(k), v)
  {
    forall id ensures !HasText(ImageParagraph(k), id, v) {
      TextIsNode(ImageParagraph(k), id, v);
    }
  }

  lemma PicturedFromRefl(body: seq<Block>, keys: set<string>)
    ensures PicturedFrom(body, body, keys)
  {
  }

  lemma PicturedFromTrans(a: seq<Block>, b: seq<Block>, c: seq<Block>, k1: set<string>, k2: set<string>, keys: set<string>)
    requires PicturedFrom(a, b, k1) && PicturedFrom(b, c, k2) && k1 <= keys && k2 <= keys
    ensures PicturedFrom(a, c, keys)
  {
    forall pos | ValidParaPos(c, pos)
      ensures ParaAt(c, pos) == ParaAt(a, pos) || PictureOf(ParaAt(a, pos), ParaAt(c, pos), keys)
    {
      assert ValidParaPos(b, pos);
      var pa, pb, pc := ParaAt(a, pos), ParaAt(b, pos), ParaAt(c, pos);
      if pc == pb {
        if pb != pa {
          var k :| k in k1 && pb == ImageParagraph(k) && HoldsValue(pa, k);
          assert k in keys;
        }
      } else {
        var k :| k in k2 && pc == ImageParagraph(k) && HoldsValue(pb, k);
        var id :| HasText(pb, id, k);
        TextIsNode(pb, id, k);
        assert pb == pa;
        assert k in keys;
      }
    }
  }

  /** A paragraph that is already a picture stays that picture. */
  lemma PicturedFromKeepsPictures(a: seq<Block>, b: seq<Block>, keys: set<string>)
    requires PicturedFrom(a, b, keys)
    ensures forall pos, k | ValidParaPos(a, pos) && ParaAt(a, pos) == ImageParagraph(k) ::
      ParaAt(b, pos) == ImageParagraph(k)
  {
    forall pos, k | ValidParaPos(a, pos) && ParaAt(a, pos) == ImageParagraph(k)
      ensures ParaAt(b, pos) == ImageParagraph(k)
    {
      assert ValidParaPos(b, pos);
      forall k' ensures !HoldsValue(ParaAt(a, pos), k') {
        PictureHoldsNoValue(k, k');
      }
    }
  }

  /** Replacing top-level paragraph `i`, which holds node `id`, by the key's picture. */
  lemma TopStep(body: seq<Block>, i: nat, id: NodeId, key: string)
    requires ParagraphAt(body, i, id)
    ensures PicturedStep(body, body[i := Para(ImageParagraph(key))], id, key)
  {
    var after := body[i := Para(ImageParagraph(key))];
    forall pos ensures ValidParaPos(after, pos) <==> ValidParaPos(body, pos) {
      if pos.block != i {
        assert pos.block < |body| ==> after[pos.block] == body[pos.block];
      }
    }
  }

  /** Replacing a cell by one whose paragraphs are the old ones, except
      paragraphs holding node `id`, which may become the key's picture. */
  lemma SetCellStep(body: seq<Block>, pos: CellPos, c: Cell, id: NodeId, key: string)
    requires ValidPos(body, pos)
    requires |c.paragraphs| == |CellAt(body, pos).paragraphs|
    requires forall k | 0 <= k < |c.paragraphs| ::
      c.paragraphs[k] == CellAt(body, pos).paragraphs[k] ||
      (c.paragraphs[k] == ImageParagraph(key) && HasNode(CellAt(body, pos).paragraphs[k], id))
    ensures PicturedStep(body, SetCell(body, pos, c), id, key)
  {
    var after := SetCell(body, pos, c);
    forall q ensures ValidParaPos(after, q) <==> ValidParaPos(body, q) {
      if q.block != pos.block {
        assert q.block < |body| ==> after[q.block] == body[q.block];
      } else if q.InCell? && q.row < |body[pos.block].t.rows| {
        if q.row != pos.row {
          assert after[pos.block].t.rows[q.row] == body[pos.block].t.rows[q.row];
        } else if q.cell < |body[pos.block].t.rows[pos.row].cells| && q.cell != pos.cell {
          assert after[pos.block].t.rows[q.row].cells[q.cell] == body[pos.block].t.rows[q.row].cells[q.cell];
        }
      }
    }
    forall q | ValidParaPos(after, q)
      ensures ParaAt(after, q) == ParaAt(body, q) || (ParaAt(after, q) == ImageParagraph(key) && HeldAt(body, q, id))
    {
      if q.block != pos.block {
        assert after[q.block] == body[q.block];
      } else if q.row != pos.row {
        assert after[pos.block].t.rows[q.row] == body[pos.block].t.rows[q.row];
      } else if q.cell != pos.cell {
        assert after[pos.block].t.rows[q.row].cells[q.cell] == body[pos.block].t.rows[q.row].cells[q.cell];
      } else {
        assert ParaAt(after, q) == c.paragraphs[q.index];
        assert ParaAt(body, q) == CellAt(body, pos).paragraphs[q.index];
      }
    }
  }

  /** Placing one node keeps every paragraph, except that the paragraph it
      replaces held the node and is now the key's picture. */
  lemma PlaceOneStep(doc: Document, id: NodeId, key: string)
    ensures PicturedStep(doc.body, PlaceOne(doc, id, key).body, id, key)
  {
    var r := PlaceOne(doc, id, key);
    match FindCell(doc.body, id, 0) {
      case Some(cpos) =>
        var cell := CellAt(doc.body, cpos);
        var c' := ReplaceInCell(cell, id, key).0;
        assert r.body == SetCell(doc.body, cpos, c');
        SetCellStep(doc.body, cpos, c', id, key);
      case None =>
        match BodyIndex(doc.body, id, 0) {
          case Some(i) =>
            assert r.body == doc.body[i := Para(ImageParagraph(key))];
            TopStep(doc.body, i, id, key);
          case None =>
            assert r == doc;
        }
    }
  }

  /** With distinct ids, a replaceable paragraph holding the node becomes
      the key's picture. */
  lemma PlaceOneLands(doc: Document, id: NodeId, key: string)
    requires DistinctIds(doc.body)
    ensures forall pos | Replaceable(pos) && HeldAt(doc.body, pos, id) ::
      ParaAt(PlaceOne(doc, id, key).body, pos) == ImageParagraph(key)
  {
    var r := PlaceOne(doc, id, key);
    PlaceOneStep(doc, id, key);
    PlaceOneClears(doc, id, key);
    forall pos | Replaceable(pos) && HeldAt(doc.body, pos, id)
      ensures ParaAt(r.body, pos) == ImageParagraph(key)
    {
      assert ValidParaPos(r.body, pos);
      assert !HeldAt(r.body, pos, id);
    }
  }

  /** The loop over nodes that are all text nodes valued `key`: every
      paragraph is kept or becomes the key's picture, and every replaceable
      paragraph holding one of the nodes becomes it. */
  lemma {:induction false} PlaceAllPictures(doc: Document, ids: seq<NodeId>, key: string)
    requires DistinctIds(doc.body)
    requires forall k, pos | 0 <= k < |ids| && HeldAt(doc.body, pos, ids[k]) ::
      HasText(ParaAt(doc.body, pos), ids[k], key)
    ensures PicturedFrom(doc.body, PlaceAll(doc, ids, key).body, {key})
    ensures forall k, pos | 0 <= k < |ids| && Replaceable(pos) && HeldAt(doc.body, pos, ids[k]) ::
      ParaAt(PlaceAll(doc, ids, key).body, pos) == ImageParagraph(key)
    decreases |ids|
  {
    if ids == [] {
      PicturedFromRefl(doc.body, {key});
    } else {
      var d1 := PlaceOne(doc, ids[0], key);
      var r := PlaceAll(d1, ids[1..], key);
      assert r == PlaceAll(doc, ids, key);
      PlaceOneStep(doc, ids[0], key);
      PlaceOneKeepsDistinctIds(doc, ids[0], key);
      PlaceOneLands(doc, ids[0], key);
      forall pos | ValidParaPos(d1.body, pos)
        ensures ParaAt(d1.body, pos) == ParaAt(doc.body, pos) || PictureOf(ParaAt(doc.body, pos), ParaAt(d1.body, pos), {key})
      {
        if ParaAt(d1.body, pos) != ParaAt(doc.body, pos) {
          assert HasText(ParaAt(doc.body, pos), ids[0], key);
          assert HoldsValue(ParaAt(doc.body, pos), key);
        }
      }
      assert PicturedFrom(doc.body, d1.body, {key});
      forall k, pos | 0 <= k < |ids[1..]| && HeldAt(d1.body, pos, ids[1..][k])
        ensures HasText(ParaAt(d1.body, pos), ids[1..][k], key)
      {
        assert ids[1..][k] == ids[k + 1];
        assert !HasNode(ImageParagraph(key), ids[k + 1]);
        assert ParaAt(d1.body, pos) == ParaAt(doc.body, pos);
      }
      PlaceAllPictures(d1, ids[1..], key);
      PicturedFromTrans(doc.body, d1.body, r.body, {key}, {key}, {key});
      PicturedFromKeepsPictures(d1.body, r.body, {key});
      forall k, pos | 0 <= k < |ids| && Replaceable(pos) && HeldAt(doc.body, pos, ids[k])
        ensures ParaAt(r.body, pos) == ImageParagraph(key)
      {
        if k > 0 {
          assert ids[k] == ids[1..][k - 1];
          assert ValidParaPos(d1.body, pos);
          if !HeldAt(d1.body, pos, ids[k]) {
            assert ParaAt(d1.body, pos) != ParaAt(doc.body, pos);
          }
        }
      }
    }
  }

  /** With distinct ids, every node the lookup matches is a text node
      valued `key` wherever it is held. */
  lemma MatchesAreKeyText(doc: Document, key: string)
    requires DistinctIds(doc.body)
    ensures var ids := ImageMatches(doc.body, key);
      forall k, pos | 0 <= k < |ids| && HeldAt(doc.body, pos, ids[k]) :: HasText(ParaAt(doc.body, pos), ids[k], key)
  {
    var ids := ImageMatches(doc.body, key);
    forall k, pos | 0 <= k < |ids| && HeldAt(doc.body, pos, ids[k])
      ensures HasText(ParaAt(doc.body, pos), ids[k], key)
    {
      var id := ids[k];
      assert id in ids;
      var p :| p in AllParagraphs(doc.body) && HasText(p, id, key);
      var home := PositionOf(doc.body, p);
      TextIsNode(p, id, key);
      assert HeldAt(doc.body, home, id);
      assert home == pos;
    }
  }

  /** With distinct ids, placing the key's matches turns exactly the
      paragraphs holding the key's text into the key's picture. */
  lemma MatchesPictured(doc: Document, key: string)
    requires DistinctIds(doc.body)
    ensures var r := PlaceAll(doc, ImageMatches(doc.body, key), key);
      && PicturedFrom(doc.body, r.body, {key})
      && forall pos, id | Replaceable(pos) && ValidParaPos(doc.body, pos) && HasText(ParaAt(doc.body, pos), id, key) ::
           ParaAt(r.body, pos) == ImageParagraph(key)
  {
    var ids := ImageMatches(doc.body, key);
    var r := PlaceAll(doc, ids, key);
    MatchesAreKeyText(doc, key);
    PlaceAllPictures(doc, ids, key);
    forall pos, id | Replaceable(pos) && ValidParaPos(doc.body, pos) && HasText(ParaAt(doc.body, pos), id, key)
      ensures ParaAt(r.body, pos) == ImageParagraph(key)
    {
      PositionedIsListed(doc.body, pos);
      assert id in ids;
      var k :| 0 <= k < |ids| && ids[k] == id;
      TextIsNode(ParaAt(doc.body, pos), id, key);
      assert HeldAt(doc.body, pos, ids[k]);
    }
  }

  /** After the loop over the matches, no replaceable paragraph holds any
      of the matched nodes. */
  lemma {:induction false} PlaceAllClears(doc: Document, ids: seq<NodeId>, key: string)
    requires DistinctIds(doc.body)
    ensures OnlyPictured(doc.body, PlaceAll(doc, ids, key).body)
    ensures forall k, pos | 0 <= k < |ids| && Replaceable(pos) :: !HeldAt(PlaceAll(doc, ids, key).body, pos, ids[k])
    decreases |ids|
  {
    if ids == [] {
      OnlyPicturedRefl(doc.body);
    } else {
      var d1 := PlaceOne(doc, ids[0], key);
      var r := PlaceAll(d1, ids[1..], key);
      assert r == PlaceAll(doc, ids, key);
      PlaceOneKeepsDistinctIds(doc, ids[0], key);
      PlaceOneClears(doc, ids[0], key);
      PlaceAllClears(d1, ids[1..], key);
      OnlyPicturedTrans(doc.body, d1.body, r.body);
      OnlyPicturedHeld(d1.body, r.body);
      forall k, pos | 0 <= k < |ids| && Replaceable(pos) ensures !HeldAt(r.body, pos, ids[k]) {
        if k > 0 {
          assert ids[k] == ids[1..][k - 1];
        }
      }
    }
  }

  /** The loop sets the key's extent exactly when the key had one or some
      matched node sat in a replaceable paragraph of the document it
      started from. */
  lemma {:induction false} PlaceAllExtent(doc: Document, ids: seq<NodeId>, key: string)
    ensures key in PlaceAll(doc, ids, key).extents <==>
      key in doc.extents || exists k :: 0 <= k < |ids| && InScope(doc.body, ids[k])
    decreases |ids|
  {
    if ids != [] {
      var d1 := PlaceOne(doc, ids[0], key);
      PlaceOneExtent(doc, ids[0], key);
      PlaceOneKeepsDistinctIds(doc, ids[0], key);
      OnlyPicturedHeld(doc.body, d1.body);
      PlaceAllExtent(d1, ids[1..], key);
      forall k | 1 <= k < |ids| ensures InScope(d1.body, ids[k]) ==> InScope(doc.body, ids[k]) {
      }
      forall k | 1 <= k < |ids| && InScope(doc.body, ids[k]) && !InScope(d1.body, ids[k])
        ensures key in d1.extents
      {
        assert d1 != doc;
      }
      if exists k :: 0 <= k < |ids| && InScope(doc.body, ids[k]) {
        var k :| 0 <= k < |ids| && InScope(doc.body, ids[k]);
        if k > 0 {
          assert ids[k] == ids[1..][k - 1];
        }
      }
      if exists k :: 0 <= k < |ids[1..]| && InScope(d1.body, ids[1..][k]) {
        var k :| 0 <= k < |ids[1..]| && InScope(d1.body, ids[1..][k]);
        assert ids[1..][k] == ids[k + 1];
      }
    }
  }

  /** `addImageToPlaceholder`, with distinct ids: a decodable resource
      leaves no replaceable paragraph holding a text node whose value is the
      key, and the key has an extent afterwards exactly when it had one or
      such a paragraph existed. */
  lemma AddImagePlaces(doc: Document, key: string, res: Resource)
    requires DistinctIds(doc.body)
    ensures OnlyPictured(doc.body, AddImage(doc, key, res).body)
    ensures PicturedFrom(doc.body, AddImage(doc, key, res).body, {key})
    ensures res.decodable ==>
      forall pos, id | Replaceable(pos) && ValidParaPos(doc.body, pos) && HasText(ParaAt(doc.body, pos), id, key) ::
        ParaAt(AddImage(doc, key, res).body, pos) == ImageParagraph(key)
    ensures res.decodable ==>
      forall pos, id | Replaceable(pos) && ValidParaPos(AddImage(doc, key, res).body, pos) ::
        !HasText(ParaAt(AddImage(doc, key, res).body, pos), id, key)
    ensures key in AddImage(doc, key, res).extents <==>
      key in doc.extents || (res.decodable && exists pos :: HoldsKeyAt(doc.body, pos, key))
  {
    if !res.decodable {
      OnlyPicturedRefl(doc.body);
      PicturedFromRefl(doc.body, {key});
    } else {
      var ids := ImageMatches(doc.body, key);
      assert AddImage(doc, key, res) == PlaceAll(doc, ids, key);
      MatchesCleared(doc, key);
      MatchesPictured(doc, key);
      PlaceAllExtent(doc, ids, key);
      MatchesInScopeIff(doc, key);
    }
  }

  lemma MatchesCleared(doc: Document, key: string)
    requires DistinctIds(doc.body)
    ensures var r := PlaceAll(doc, ImageMatches(doc.body, key), key);
      && OnlyPictured(doc.body, r.body)
      && forall pos, id | Replaceable(pos) && ValidParaPos(r.body, pos) :: !HasText(ParaAt(r.body, pos), id, key)
  {
    var ids := ImageMatches(doc.body, key);
    var r := PlaceAll(doc, ids, key);
    PlaceAllClears(doc, ids, key);
    OnlyPicturedHeld(doc.body, r.body);
    forall pos, id | Replaceable(pos) && ValidParaPos(r.body, pos)
      ensures !HasText(ParaAt(r.body, pos), id, key)
    {
      PositionedIsListed(doc.body, pos);
      TextIsNode(ParaAt(r.body, pos), id, key);
      if id in ids {
        var k :| 0 <= k < |ids| && ids[k] == id;
        assert !HeldAt(r.body, pos, ids[k]);
      }
    }
  }

  /** With distinct ids, a matched node sits in a replaceable paragraph
      exactly when some replaceable paragraph holds a text node whose value
      is the key. */
  lemma MatchesInScopeIff(doc: Document, key: string)
    requires DistinctIds(doc.body)
    ensures var ids := ImageMatches(doc.body, key);
      (exists k :: 0 <= k < |ids| && InScope(doc.body, ids[k])) <==> exists pos :: HoldsKeyAt(doc.body, pos, key)
  {
    var ids := ImageMatches(doc.body, key);
    if exists pos :: HoldsKeyAt(doc.body, pos, key) {
      var pos :| HoldsKeyAt(doc.body, pos, key);
      HeldKeyIsMatched(doc, key, pos);
    }
    if exists k :: 0 <= k < |ids| && InScope(doc.body, ids[k]) {
      var k :| 0 <= k < |ids| && InScope(doc.body, ids[k]);
      MatchedInScopeHoldsKey(doc, key, k);
    }
  }

  lemma HeldKeyIsMatched(doc: Document, key: string, pos: ParaPos)
    requires HoldsKeyAt(doc.body, pos, key)
    ensures exists k :: 0 <= k < |ImageMatches(doc.body, key)| && InScope(doc.body, ImageMatches(doc.body, key)[k])
  {
    var ids := ImageMatches(doc.body, key);
    var id :| HasText(ParaAt(doc.body, pos), id, key);
    PositionedIsListed(doc.body, pos);
    assert id in ids;
    var k :| 0 <= k < |ids| && ids[k] == id;
    TextIsNode(ParaAt(doc.body, pos), id, key);
    assert Replaceable(pos) && HeldAt(doc.body, pos, ids[k]);
  }

  lemma MatchedInScopeHoldsKey(doc: Document, key: string, k: nat)
    requires DistinctIds(doc.body)
    requires k < |ImageMatches(doc.body, key)| && InScope(doc.body, ImageMatches(doc.body, key)[k])
    ensures exists pos :: HoldsKeyAt(doc.body, pos, key)
  {
    var id := ImageMatches(doc.body, key)[k];
    var pos :| Replaceable(pos) && HeldAt(doc.body, pos, id);
    assert id in ImageMatches(doc.body, key);
    var p :| p in AllParagraphs(doc.body) && HasText(p, id, key);
    var home := PositionOf(doc.body, p);
    TextIsNode(p, id, key);
    assert HeldAt(doc.body, home, id);
    assert home == pos;
    assert HoldsKeyAt(doc.body, pos, key);
  }

  /** The keys whose resource can be decoded into a picture. */
  function DecodableKeys(images: map<string, Resource>): (keys: set<string>)
    ensures forall k :: k in keys <==> k in images && images[k].decodable
  {
    set k | k in images && images[k].decodable
  }

  /** Every key of `order` that the image map holds with a decodable
      resource is placed, and later keys never bring its text back. */
  lemma {:induction false} PlaceKeysPlaces(doc: Document, images: map<string, Resource>, order: seq<string>)
    requires DistinctIds(doc.body)
    ensures OnlyPictured(doc.body, PlaceKeys(doc, images, order).body)
    ensures PicturedFrom(doc.body, PlaceKeys(doc, images, order).body, DecodableKeys(images))
    ensures forall k, pos, id |
      && k in order && k in images && images[k].decodable
      && Replaceable(pos) && ValidParaPos(PlaceKeys(doc, images, order).body, pos) ::
        !HasText(ParaAt(PlaceKeys(doc, images, order).body, pos), id, k)
    decreases |order|
  {
    PlaceKeysPictured(doc, images, order);
    if order == [] {
      OnlyPicturedRefl(doc.body);
    } else {
      var next := if order[0] in images then AddImage(doc, order[0], images[order[0]]) else doc;
      if order[0] in images {
        AddImagePlaces(doc, order[0], images[order[0]]);
      } else {
        OnlyPicturedRefl(doc.body);
      }
      OnlyPicturedHeld(doc.body, next.body);
      var r := PlaceKeys(next, images, order[1..]);
      assert r == PlaceKeys(doc, images, order);
      PlaceKeysPlaces(next, images, order[1..]);
      OnlyPicturedTrans(doc.body, next.body, r.body);
      OnlyPicturedHeld(next.body, r.body);
      forall k, pos, id |
        && k in order && k in images && images[k].decodable
        && Replaceable(pos) && ValidParaPos(r.body, pos)
        ensures !HasText(ParaAt(r.body, pos), id, k)
      {
        if k != order[0] {
          assert order == [order[0]] + order[1..];
          assert k in order[1..];
        } else {
          assert ValidParaPos(next.body, pos);
        }
      }
    }
  }

  /** Visiting the keys keeps every paragraph, or turns it into the picture
      of a decodable key whose text it held. */
  lemma {:induction false} PlaceKeysPictured(doc: Document, images: map<string, Resource>, order: seq<string>)
    requires DistinctIds(doc.body)
    ensures PicturedFrom(doc.body, PlaceKeys(doc, images, order).body, DecodableKeys(images))
    decreases |order|
  {
    if order == [] {
      PicturedFromRefl(doc.body, DecodableKeys(images));
    } else {
      var next := if order[0] in images then AddImage(doc, order[0], images[order[0]]) else doc;
      var used: set<string> := if order[0] in images && images[order[0]].decodable then {order[0]} else {};
      if order[0] in images {
        AddImagePlaces(doc, order[0], images[order[0]]);
      }
      if used == {} {
        assert next == doc;
        PicturedFromRefl(doc.body, used);
      }
      OnlyPicturedHeld(doc.body, next.body);
      var r := PlaceKeys(next, images, order[1..]);
      assert r == PlaceKeys(doc, images, order);
      PlaceKeysPictured(next, images, order[1..]);
      PicturedFromTrans(doc.body, next.body, r.body, used, DecodableKeys(images), DecodableKeys(images));
    }
  }

  /** `replaceImagePlaceholders`, with distinct ids: afterwards no
      replaceable paragraph holds a text node whose value is a key with a
      decodable resource. */
  lemma ReplaceImagesPlaces(doc: Document, images: map<string, Resource>, order: seq<string>)
    requires ListsOnce(order, images.Keys) && DistinctIds(doc.body)
    ensures OnlyPictured(doc.body, ReplaceImages(doc, images, order).body)
    ensures PicturedFrom(doc.body, ReplaceImages(doc, images, order).body, DecodableKeys(images))
    ensures forall k, pos, id |
      && k in images && images[k].decodable
      && Replaceable(pos) && ValidParaPos(doc.body, pos) && HasText(ParaAt(doc.body, pos), id, k) ::
        exists k' | k' in DecodableKeys(images) ::
          ParaAt(ReplaceImages(doc, images, order).body, pos) == ImageParagraph(k') &&
          HoldsValue(ParaAt(doc.body, pos), k')
    ensures forall k, pos, id |
      && k in images && images[k].decodable
      && Replaceable(pos) && ValidParaPos(ReplaceImages(doc, images, order).body, pos) ::
        !HasText(ParaAt(ReplaceImages(doc, images, order).body, pos), id, k)
  {
    var r := ReplaceImages(doc, images, order);
    PlaceKeysPlaces(doc, images, order);
    forall k, pos, id |
      && k in images && images[k].decodable
      && Replaceable(pos) && ValidParaPos(doc.body, pos) && HasText(ParaAt(doc.body, pos), id, k)
      ensures exists k' | k' in DecodableKeys(images) ::
        ParaAt(r.body, pos) == ImageParagraph(k') && HoldsValue(ParaAt(doc.body, pos), k')
    {
      assert ValidParaPos(r.body, pos);
      assert !HasText(ParaAt(r.body, pos), id, k);
      assert ParaAt(r.body, pos) != ParaAt(doc.body, pos);
    }
  }
}

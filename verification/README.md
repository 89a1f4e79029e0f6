# Report template filling, modelled in Dafny

This project models the template-filling engine of a report generator. The
engine takes a word-processing document (OOXML) used as a template and fills
it with request data before an external renderer turns it into a PDF:

1. It scans the document for `${key}` placeholders.
2. It gives every placeholder the data map lacks a blank value of six spaces.
3. It splits the data map into text values and image values.
4. It substitutes the text values.
5. It replaces the paragraph around each image key's text node with a picture.
6. It injects table records as rows into the table whose first cell shows a
   configured column header, then evicts at most one old row.
7. It forces unset or justified alignment on top-level paragraphs to left.
8. It maps the font families the renderer asks for to installed fonts, with
   "Times New Roman" as the one fallback.

The document tree is an immutable datatype (`Documents`). The body is a
sequence of blocks, and a block is a paragraph, a table, or a container.
A container holds paragraphs that are not themselves children of the body,
as a content control does. A table holds rows, a row holds cells, and a cell
holds paragraphs. A paragraph holds runs, and a run holds text nodes
(`w:t`), drawings and other items. A text node's object identity is a
`NodeId`. Every step is a pure function from document to document. Only table
injection returns a `Result` (`Results`). It fails on a row index error, or
when the payload has no `tableData` and a target table exists: the code then
iterates null records. These are the only ways generation fails in the
model. The other ways the code can throw are listed under "Left out".

Image placement finds a paragraph from a text node's identity. The model
finds it by searching the body for a paragraph holding the node's id, so the
search agrees with the code only while no two paragraph positions hold the
same id. That is the abstraction's invariant, `Documents.DistinctIds`. A
position is a top-level paragraph, a paragraph of a cell of a top-level
table, or a paragraph of a container (`Documents.ParaPos`). Two text nodes
with one id inside a single paragraph do not break it. The invariant is
required of the document handed to image placement, and placing pictures
keeps it (`Images.PlaceOneKeepsDistinctIds`). Rows created later by table
injection all carry the id `Created`. Nothing searches by id after that
point, so they do not need distinct ids.

The model follows the code where a reader might expect something else:

- Image keys are looked up as text nodes whose whole value equals the key
  *as stored*. The lookup does not wrap the key in `${...}`
  (`Images.WrappedPlaceholderIsNotMatched`).
- A picture in a table cell is `cellWidth - 10` pixels wide and `cellWidth`
  pixels high. The *width* is the narrower dimension. A cell without a width
  therefore gets a picture of negative width (`Images.UnsizedCellGivesNegativeWidth`).
- All pictures of one key share one inline element. Its extent is
  overwritten on each successful replacement, so the last replacement's size
  applies to all of them (`Document.extents`, `Images.PlaceAllAppend`).
- Records are inserted at indices 1, 2, 3, ... in turn. The *first* record
  therefore ends up directly under the header, and the records keep their
  order (`Tables.AddRowsShape`).
- A row is evicted only when the table, counted after insertion, has more
  than `n + 1` rows *and* more than five rows. A header with three data rows
  plus two records gives six rows. The row at index 4, the second old data
  row, is evicted, and five rows remain: the header, the two records, and
  the first and third old data rows (`Tables.TwoRecordsIntoThreeDataRows`).
  A header with two data rows plus two records gives five rows, which is not
  more than five, so all are kept (`Tables.AddRowsShape`).
- The evicted row is the one at index `n + 2`, which is the second old data
  row. When the table had exactly one data row and there are at least four
  records, that index equals the table size. The removal then throws, and
  the whole generation returns null, modelled as `Failure`. Inserting into a
  table with no rows at all also throws (`Tables.AddRowsShape`,
  `Generation.GenerateFailsExactlyOnInjection`).

## Model

| member | source | states |
|---|---|---|
| `Placeholders.MatchAt` | src/main/java/com/report/parser/service/ReportGenerationService.java:38 | a match reported at a position spans at least four characters and is a whole token: `${`, one or more non-brace characters, `}` |
| `Placeholders.MatchAtComplete` | src/main/java/com/report/parser/service/ReportGenerationService.java:38 | a token occurring at a position is exactly the match the pattern finds there, ending where the token ends |
| `Placeholders.NoOverlap` | src/main/java/com/report/parser/service/ReportGenerationService.java:38 | two occurrences of tokens never overlap, so resuming the search after a match skips no token |
| `Placeholders.ScanFrom` | src/main/java/com/report/parser/service/ReportGenerationService.java:362-365 | everything the find loop collects is a token |
| `Placeholders.ScanFromSound` | src/main/java/com/report/parser/service/ReportGenerationService.java:362-365 | every token collected from a position on occurs in the text at or after that position |
| `Placeholders.ScanFromComplete` | src/main/java/com/report/parser/service/ReportGenerationService.java:362-365 | every token occurring at or after the position where the search resumes is collected |
| `Placeholders.Scan` | src/main/java/com/report/parser/service/ReportGenerationService.java:361-365 | the collected set of a text holds only tokens |
| `Placeholders.ScanIff` | src/main/java/com/report/parser/service/ReportGenerationService.java:361-365 | a string is collected from a text if and only if it is a token and a substring of that text |
| `Placeholders.ParagraphKeys` | src/main/java/com/report/parser/service/ReportGenerationService.java:344-366 | a paragraph contributes only tokens |
| `Placeholders.ParagraphsKeys` | src/main/java/com/report/parser/service/ReportGenerationService.java:334-342 | the paragraphs of a cell contribute only tokens |
| `Placeholders.BlockKeys` | src/main/java/com/report/parser/service/ReportGenerationService.java:318-332 | a table contributes only tokens, taken from its cell paragraphs |
| `Placeholders.DocumentKeys` | src/main/java/com/report/parser/service/ReportGenerationService.java:307-316 | the requested keys of a document are all tokens |
| `Placeholders.ParagraphsKeysIff` | src/main/java/com/report/parser/service/ReportGenerationService.java:336-341 | a token is collected from a list of paragraphs if and only if one of them yields it |
| `Placeholders.BlockKeysIff` | src/main/java/com/report/parser/service/ReportGenerationService.java:318-342 | a block yields a token if and only if it is that paragraph, or a table with a cell paragraph that yields it; a container yields nothing |
| `Placeholders.DocumentKeysIff` | src/main/java/com/report/parser/service/ReportGenerationService.java:307-316 | a token is requested if and only if a top-level paragraph or a paragraph in a cell of a top-level table yields it |
| `Placeholders.ScannerFindsExactlyTheTokens` | src/main/java/com/report/parser/service/ReportGenerationService.java:307-366 | the requested keys are exactly the tokens occurring in the concatenated run text of a scanned paragraph |
| `Placeholders.ContainersAreNotScanned` | src/main/java/com/report/parser/service/ReportGenerationService.java:309-315 | changing what a container holds never changes the requested keys |
| `Placeholders.SplitPlaceholderIsFound` | src/main/java/com/report/parser/service/ReportGenerationService.java:344-361 | a token split over two runs of one paragraph is still collected |
| `Placeholders.IndexOf` | src/main/java/com/report/parser/service/ReportGenerationService.java:120 | the result is -1 exactly when the character is absent; otherwise it is the first position holding the character |
| `Placeholders.InnerKey` | src/main/java/com/report/parser/service/ReportGenerationService.java:120 | the text between a token's first `{` and first `}` is non-empty and brace-free, and wrapping it as `${...}` gives back the token |
| `Placeholders.InnerKeyOfWrap` | src/main/java/com/report/parser/service/ReportGenerationService.java:116-120 | wrapping a non-empty brace-free key gives a token whose bare key is the key again |
| `Placeholders.WrappedIff` | src/main/java/com/report/parser/service/ReportGenerationService.java:116-119 | a token is among the wrapped data keys if and only if its bare key is a data key |
| `Placeholders.Defaulted` | src/main/java/com/report/parser/service/ReportGenerationService.java:115-124 | afterwards every requested token's bare key is a key of the map; existing entries keep their values; every added entry is six spaces under the bare key of a requested token |
| `Placeholders.VerifyPlaceholderMap` | src/main/java/com/report/parser/service/ReportGenerationService.java:115-124 | the token-by-token loop builds exactly the defaulted map |
| `Placeholders.MissingKeyIsBlanked` | src/main/java/com/report/parser/service/ReportGenerationService.java:115-124 | two distinct placeholders requested (say `${name}` and `${mobile}`) with only the first key supplied: the map becomes exactly the first key with its value plus the second key mapped to six spaces |
| `Placeholders.PartitionOfValues` | src/main/java/com/report/parser/service/ReportGenerationService.java:93-99 | a key is a text key exactly when its value is a string, and an image key exactly when it is a resource; no key is both; a key is in neither exactly when its value is something else |
| `Placeholders.SeparatePlaceholders` | src/main/java/com/report/parser/service/ReportGenerationService.java:89-99 | one pass over the entries builds exactly the text map and the image map |
| `Placeholders.DefaultsAreText` | src/main/java/com/report/parser/service/ReportGenerationService.java:121 | a key the verifier adds reaches the text map with the value of six spaces |
| `Images.JavaDiv` | src/main/java/com/report/parser/service/ReportGenerationService.java:236 | long division truncates toward zero: the quotient is the floor for a non-negative dividend and the ceiling for a negative one |
| `Images.CellWidthPx` | src/main/java/com/report/parser/service/ReportGenerationService.java:232-239 | the width is 0 without cell properties or a width; otherwise it is the twips divided by 15 and truncated toward zero (`* 96 / 1440`) |
| `Images.PixelExtent` | src/main/java/com/report/parser/service/ReportGenerationService.java:214-219 | each dimension in EMU is a multiple of 9525 whose quotient by 9525 is the pixel size |
| `Images.ExtentsInEmu` | src/main/java/com/report/parser/service/ReportGenerationService.java:202 | a free picture is 1905000 by 952500 EMU; a picture in a cell of `w` twips is `(w*96/1440 - 10) * 9525` by `w*96/1440 * 9525` EMU |
| `Images.UnsizedCellGivesNegativeWidth` | src/main/java/com/report/parser/service/ReportGenerationService.java:202 | in a cell with no width the picture is -95250 EMU wide and 0 high |
| `Images.RunMatches` | src/main/java/com/report/parser/service/ReportGenerationService.java:131 | an id is matched in a run if and only if the run has a text node with that id whose value is exactly the key |
| `Images.ChildrenMatches` | src/main/java/com/report/parser/service/ReportGenerationService.java:131 | an id is matched among a paragraph's children if and only if one of its runs has that exact text node |
| `Images.ParagraphMatchesIff` | src/main/java/com/report/parser/service/ReportGenerationService.java:131 | an id is matched in a paragraph if and only if the paragraph holds a text node with that id and exactly the key as its value |
| `Images.ImageParagraph` | src/main/java/com/report/parser/service/ReportGenerationService.java:212-230 | the new picture paragraph holds no text node and no node id, and its text is empty |
| `Images.MatchesIn` | src/main/java/com/report/parser/service/ReportGenerationService.java:131 | an id is matched in a list of paragraphs if and only if one of them holds that exact text node |
| `Images.ImageMatches` | src/main/java/com/report/parser/service/ReportGenerationService.java:131 | the lookup finds an id if and only if some paragraph of the document, inside containers and cells included, holds that exact text node |
| `Images.WrappedPlaceholderIsNotMatched` | src/main/java/com/report/parser/service/ReportGenerationService.java:131 | a text node holding `${key}` is not a match for `key` |
| `Images.BodyIndex` | src/main/java/com/report/parser/service/ReportGenerationService.java:175 | the found index is the first top-level paragraph holding the node; none is found only when no top-level paragraph holds it |
| `Images.ReplaceContent` | src/main/java/com/report/parser/service/ReportGenerationService.java:174-182 | the body keeps its length; when a top-level paragraph holds the node, the first such block, and only it, becomes a picture paragraph; otherwise nothing changes |
| `Images.CellIndex` | src/main/java/com/report/parser/service/ReportGenerationService.java:186-203 | the found index is the first cell paragraph whose runs hold the node; none is found only when no paragraph of the cell holds it |
| `Images.ReplaceInCell` | src/main/java/com/report/parser/service/ReportGenerationService.java:184-210 | the cell keeps its properties and paragraph count; it is changed exactly when one of its paragraphs holds the node, and then only the first such paragraph becomes a picture paragraph |
| `Images.FindInRow` | src/main/java/com/report/parser/service/ReportGenerationService.java:136-141 | a found cell of the row holds the node and no earlier cell does; none is found only when no cell of the row holds it |
| `Images.FindInTable` | src/main/java/com/report/parser/service/ReportGenerationService.java:136-141 | a found row and cell hold the node and no earlier cell in row order does; none is found only when no cell of the table holds it |
| `Images.FindCell` | src/main/java/com/report/parser/service/ReportGenerationService.java:136-141 | a found position is a cell of a top-level table whose paragraphs hold the node; none is found only when no such cell holds it |
| `Images.PlaceOne` | src/main/java/com/report/parser/service/ReportGenerationService.java:133-150 | a node in a cell replaces its cell paragraph and sets the key's extent to the cell size; any other node replaces the first top-level paragraph holding it and sets the extent to 200 by 100 pixels; a node in neither changes nothing; the body length and other keys' extents never change |
| `Images.PlaceAll` | src/main/java/com/report/parser/service/ReportGenerationService.java:132-157 | handling the matches keeps the body length and every other key's extent |
| `Images.PlaceOneKeepsDistinctIds` | src/main/java/com/report/parser/service/ReportGenerationService.java:133-150 | handling one node only replaces paragraphs by text-free ones at the same positions, so distinct ids stay distinct |
| `Images.PlaceOneClears` | src/main/java/com/report/parser/service/ReportGenerationService.java:133-150 | with distinct ids, after handling a node no top-level paragraph and no top-level cell paragraph holds it |
| `Images.PlaceOneExtent` | src/main/java/com/report/parser/service/ReportGenerationService.java:140-150 | the key gets an extent exactly when it had one or a top-level paragraph or top-level cell paragraph held the node; otherwise nothing changes |
| `Images.PlaceAllClears` | src/main/java/com/report/parser/service/ReportGenerationService.java:132-157 | with distinct ids, after the loop no top-level paragraph and no top-level cell paragraph holds any handled node, and every other paragraph is unchanged or text-free |
| `Images.PlaceOneStep` | src/main/java/com/report/parser/service/ReportGenerationService.java:133-150 | handling one node keeps every paragraph position and paragraph, except one that held the node and is now the key's picture |
| `Images.PlaceOneLands` | src/main/java/com/report/parser/service/ReportGenerationService.java:133-150 | with distinct ids, the top-level paragraph or top-level cell paragraph holding the node becomes the key's picture |
| `Images.PlaceAllPictures` | src/main/java/com/report/parser/service/ReportGenerationService.java:132-157 | with distinct ids and every handled node a text node valued as the key, each paragraph is kept or becomes the key's picture, and every top-level or top-level cell paragraph holding a handled node becomes it |
| `Images.MatchesAreKeyText` | src/main/java/com/report/parser/service/ReportGenerationService.java:131 | with distinct ids, wherever a matched node is held, it is a text node whose value is the key |
| `Images.MatchesPictured` | src/main/java/com/report/parser/service/ReportGenerationService.java:131-157 | with distinct ids, the loop over the key's matches keeps every paragraph or makes it the key's picture, and every top-level or top-level cell paragraph holding the key's text becomes the key's picture |
| `Images.PlaceAllExtent` | src/main/java/com/report/parser/service/ReportGenerationService.java:132-157 | after the loop the key has an extent exactly when it had one or some handled node sat in a top-level paragraph or top-level cell paragraph |
| `Images.PlaceAllAppend` | src/main/java/com/report/parser/service/ReportGenerationService.java:218-219 | matches are handled one after another on the updated document, so the last handled match decides the key's shared extent |
| `Images.AddImage` | src/main/java/com/report/parser/service/ReportGenerationService.java:126-161 | an undecodable resource, or a key with no matching text node, leaves the document unchanged; other keys' extents and the body length are kept |
| `Images.AddImagePlaces` | src/main/java/com/report/parser/service/ReportGenerationService.java:126-161 | with distinct ids and a decodable resource, afterwards no top-level paragraph and no top-level cell paragraph holds a text node whose value is the key; the key has an extent exactly when it had one or such a paragraph held the key; every such paragraph that held the key's text is now the key's picture; every other paragraph is kept |
| `Images.MatchesInScopeIff` | src/main/java/com/report/parser/service/ReportGenerationService.java:131-141 | with distinct ids, some matched node sits in a top-level paragraph or top-level cell paragraph exactly when such a paragraph holds a text node valued as the key |
| `Images.ReplaceImages` | src/main/java/com/report/parser/service/ReportGenerationService.java:109-113 | each image key visited once; the body length and the extents of keys not in the image map are kept |
| `Images.PlaceKeysPlaces` | src/main/java/com/report/parser/service/ReportGenerationService.java:109-113 | with distinct ids, after visiting the keys no top-level paragraph or top-level cell paragraph holds a text node valued as a visited key with a decodable resource |
| `Images.PlaceKeysPictured` | src/main/java/com/report/parser/service/ReportGenerationService.java:109-113 | visiting the keys keeps every paragraph, or turns it into the picture of a key with a decodable resource whose text it held |
| `Images.ReplaceImagesPlaces` | src/main/java/com/report/parser/service/ReportGenerationService.java:109-113 | with distinct ids, after image placement no top-level paragraph or top-level cell paragraph holds a text node valued as any image key with a decodable resource; each such paragraph that held one is now the picture of a decodable key whose text it held; every other paragraph is kept |
| `Images.SetCell` | src/main/java/com/report/parser/service/ReportGenerationService.java:204 | the cell at the position is the new one; every other block, row and cell is unchanged |
| `Tables.FindTable` | src/main/java/com/report/parser/service/ReportGenerationService.java:373-379 | the found block is the first top-level table whose first-cell value is a column header; none is found only when no table qualifies |
| `Tables.TextCell` | src/main/java/com/report/parser/service/ReportGenerationService.java:430-437 | a generated cell has one paragraph whose text is the given value |
| `Tables.RowFromRecord` | src/main/java/com/report/parser/service/ReportGenerationService.java:421-442 | a generated row has one cell per column, in column order, with the record's value for that column's field, or "" when the record has none |
| `Tables.FreshRows` | src/main/java/com/report/parser/service/ReportGenerationService.java:381-383 | one row per record, in record order; cell `j` of row `k` has one paragraph, whose text is record `k`'s value for column `j`'s field, or "" when the record has none |
| `Tables.InsertRows` | src/main/java/com/report/parser/service/ReportGenerationService.java:381-385 | inserting fails exactly when there are rows to add and the index is past the end, with that index and size as the error; on success the list grows by the added rows |
| `Tables.Evict` | src/main/java/com/report/parser/service/ReportGenerationService.java:386-388 | a row is removed exactly when the count exceeds both `n + 1` and five; the removal fails exactly when index `n + 2` equals the count; otherwise rows before `n + 2` stay and later rows move up one |
| `Tables.AddRows` | src/main/java/com/report/parser/service/ReportGenerationService.java:380-388 | on success with a non-empty table, the header stays first and the records' rows follow it in order |
| `Tables.InsertRowsShape` | src/main/java/com/report/parser/service/ReportGenerationService.java:381-385 | inserting at consecutive indices from a valid index puts the new rows there as one block, in order |
| `Tables.InsertIntoEmptyFails` | src/main/java/com/report/parser/service/ReportGenerationService.java:384 | inserting at index 1 into a table with no rows fails |
| `Tables.AddRowsShape` | src/main/java/com/report/parser/service/ReportGenerationService.java:380-388 | injection fails exactly when the table is empty with records to add, or has one data row with four or more records; otherwise the header stays, the records' rows follow in order, then the old rows, minus the second old data row when eviction applies |
| `Tables.AddRowsSize` | src/main/java/com/report/parser/service/ReportGenerationService.java:384-388 | on success the row count is old rows plus records, minus one exactly when eviction applies |
| `Tables.TwoRecordsIntoThreeDataRows` | src/main/java/com/report/parser/service/ReportGenerationService.java:380-388 | a header with three data rows given two records ends as header, the two records' rows, then the first and third old data rows |
| `Tables.InjectRows` | src/main/java/com/report/parser/service/ReportGenerationService.java:368-395 | on success the body keeps its length and the picture extents are untouched |
| `Tables.AddRowsKeepsFirstCellValue` | src/main/java/com/report/parser/service/ReportGenerationService.java:378-410 | rows go in at index 1 and later, so after a successful injection the first-cell value the target check reads is unchanged |
| `Tables.InjectRowsKeepsFirstTarget` | src/main/java/com/report/parser/service/ReportGenerationService.java:373-410 | after a successful injection the same table is still the first target table |
| `Tables.InjectTableData` | src/main/java/com/report/parser/service/ReportGenerationService.java:47-51 | with null records, injection fails exactly when a target table exists, and otherwise leaves the document unchanged; on success the body length and the extents are kept |
| `Tables.InjectRowsTouchesFirstTarget` | src/main/java/com/report/parser/service/ReportGenerationService.java:372-391 | with no target table nothing changes; otherwise only the first target table is rewritten, and the step fails exactly when that table's injection fails |
| `Alignment.NormalizeParagraph` | src/main/java/com/report/parser/service/ReportGenerationService.java:282-292 | a paragraph without properties is unchanged; an unset or justified alignment becomes left; any other alignment is unchanged; the content is never touched |
| `Alignment.NormalizeBody` | src/main/java/com/report/parser/service/ReportGenerationService.java:271-280 | only blocks that are paragraphs are normalised; tables, with their cell paragraphs, and containers are unchanged |
| `Alignment.NormalizeDocument` | src/main/java/com/report/parser/service/ReportGenerationService.java:271-273 | the picture extents are untouched |
| `Alignment.NormalizeBodyNormalizes` | src/main/java/com/report/parser/service/ReportGenerationService.java:271-292 | afterwards no top-level paragraph with properties is unset or justified |
| `Alignment.NormalizedIsFixed` | src/main/java/com/report/parser/service/ReportGenerationService.java:282-292 | a body already normalised is left as it is |
| `Alignment.NormalizeIdempotent` | src/main/java/com/report/parser/service/ReportGenerationService.java:271-292 | applying the pass twice equals applying it once |
| `Fonts.ResolveFonts` | src/main/java/com/report/parser/service/ReportGenerationService.java:294-305 | only requested families are mapped, and a requested family is mapped exactly when it or "Times New Roman" is installed |
| `Fonts.FallbackIsOneLevel` | src/main/java/com/report/parser/service/ReportGenerationService.java:297-303 | an installed family maps to itself; a missing one maps to the fallback, or to nothing when the fallback is missing too |
| `Fonts.PopulateFontMappings` | src/main/java/com/report/parser/service/ReportGenerationService.java:294-305 | the name-by-name loop builds exactly the fallback mapping |
| `Generation.Prepare` | src/main/java/com/report/parser/service/ReportGenerationService.java:79-103 | every placeholder found in the template has a value in the working data map before substitution; caller entries are kept; added entries are six spaces; the image map is the caller's |
| `Placeholders.DefaultedKeepsImages` | src/main/java/com/report/parser/service/ReportGenerationService.java:93-124 | defaulting adds no image values, so the image map is the caller's |
| `Generation.PreparePlacesImages` | src/main/java/com/report/parser/service/ReportGenerationService.java:79-103 | with distinct ids in the substituted document, no top-level paragraph or top-level cell paragraph of the prepared document holds a text node valued as an image key with a decodable resource; each such paragraph that held one is now the picture of a decodable key whose text it held; every other paragraph is as substitution left it |
| `Generation.PlaceInSingleCell` | src/main/java/com/report/parser/service/ReportGenerationService.java:126-210 | a key held by the one paragraph of a one-cell table becomes a picture in that cell, with the cell's size as the key's extent |
| `Generation.CellPictureScenario` | src/main/java/com/report/parser/service/ReportGenerationService.java:79-103 | preparing a one-cell table whose paragraph holds an image key, with the text untouched, turns that paragraph into a picture sized to the cell |
| `Generation.Generate` | src/main/java/com/report/parser/service/ReportGenerationService.java:42-64 | a document handed to the renderer has no unset or justified top-level paragraph alignment; without table injection generation never fails |
| `Generation.InjectRowsFailsIff` | src/main/java/com/report/parser/service/ReportGenerationService.java:368-395 | row injection fails exactly when the first target table is empty with records to add, or has exactly one data row with four or more records |
| `Generation.GenerateFailsExactlyOnInjection` | src/main/java/com/report/parser/service/ReportGenerationService.java:42-64 | generation fails exactly when table data is injected and either the records are null and a target table exists, or the first target table is empty with records to add, or has exactly one data row with four or more records |

## Left out

- Generation.Generate: fails only on a row index error or on null records meeting a target table. The code also returns null when any other exception reaches line 60. A `tableData` value that does not convert to a list of maps makes `convertValue` (lines 48-49) throw; this includes the six spaces the defaulting step puts under `tableData` when the template holds `${tableData}`. A row child that is a `JAXBElement` but not a cell makes the cast at line 335 throw out of `prepareWordMLPackage`. Loading, the image calls and rendering can throw as well. None of these is representable in the tree, which holds only cells in rows.
- Generation.GenerateFailsExactlyOnInjection: "exactly" holds for the modelled trees and convertible `tableData` only. The failure at line 335, the failed conversion and the other exceptions named for `Generation.Generate` are outside it.
- Template loading, writing `report.pdf` and the PDF rendering (lines 42-64, 80) are I/O and an external renderer. The model stops at the document handed to the renderer, and a thrown exception becomes `Failure`.
- Text substitution (lines 88, 105-107) calls the document engine's run merging and `${key}` replacement, which this model cannot see. It is the `substitute` parameter of `Generation.Prepare`.
- Image bytes, `createImagePart` and `createImageInline` (lines 127-130) are library calls. A resource is an opaque handle, and its `decodable` flag says whether those calls succeed.
- The XPath query (line 131) is modelled as "text nodes whose value equals the key". A key containing `'` breaks the query string. That exception, which skips the key, is not modelled.
- The iteration order of the image map (a `HashMap`, line 110) is a parameter `order`.
- Text nodes that sit directly under a paragraph or a cell (the branches at lines 145-150) are not modelled. The tree keeps text nodes in runs.
- Runs nested inside hyperlinks, fields or content controls within a paragraph are opaque `OtherChild` items. The scanner skips them too (line 348), but the image lookup does not: the XPath query at line 131 finds every `w:t`, nested ones included.
- Images.AddImage: does not model a match in a nested run. For such a run the cast of the run's parent to a paragraph (line 138) throws. The catch at line 158 then abandons that key's remaining matches, keeping the pictures already placed. The model neither finds nor places such matches.
- Images.AddImagePlaces, Images.PlaceKeysPlaces, Images.PlaceKeysPictured, Images.ReplaceImagesPlaces and Generation.PreparePlacesImages: the placement promise is stated only for documents whose paragraph positions hold distinct ids. The code finds a node's paragraph by object identity, which the model does not have; with a repeated id the model can replace the wrong paragraph.
- Tables inside content controls are not representable, because a container holds only paragraphs. For a text node in a cell of such a table, the code takes the cell branch at line 140.
- Nested tables inside cells, non-paragraph content of cells (`getCellValue` at lines 412-419 renders a cell's first non-null item, whatever it is), non-row content of tables and non-cell content of rows are not in the tree.
- `getCellValue`'s `obj.toString()` (line 415) depends on the document library's paragraph rendering. It is the `show` parameter.
- Converting the payload's `tableData` entry into records (lines 48-49) is library code. The records are a parameter, `None` when the entry is absent or null.
- Images.CellWidthPx: does not model `BigInteger.longValue` truncation or 64-bit overflow of `value * 96`, because widths are unbounded integers here; a missing `w` value (a null pointer) is not modelled either.
- Images.PixelExtent: does not model 64-bit overflow of `px * 9525`, because pixel sizes are unbounded integers here.
- A justification whose value is null (a null pointer at line 286) is not modelled. Every alignment carries a value.
- The physical font store (`PhysicalFonts`) is an external collaborator. It is a map from exact family name to font, and the mapping is built fresh as at line 55.
- Logging is not modelled.
- `createTable`, `setCellPropertiesAndValue` and `escapeXml` (lines 488-608) are reached only from commented-out code and are not modelled.
- ParserService.java (fixture assembly) and ParserController.java (the HTTP endpoint) are not part of this model.

# docx2txt text extraction, modelled in Dafny

This project models the text-extraction pipeline of docx2txt
(`docx2txt/docx2txt.py`): how `xml2text` turns a parsed WordprocessingML part
into text or page segments, how `strip_list` and `str.strip` clean the result,
how `process` picks the header, body and footer parts of a `.docx` package and
joins their text, and which archive entries `process` copies out as images and
under which name.

Modules:

- `Wrappers`: `Option` and `Result`, the failure values of the model.
- `Names`: `qn` and the five Clark names the extractor compares tags against,
  and the `Tag` enumeration that stands for the outcome of those comparisons.
- `Xml`: the parsed element tree (`Node`) and `root.iter()` (`Preorder`).
- `Segments`: concatenation of what a run of items adds, and cutting a run into
  segments at boundary items, for any item type.
- `Transform`: `xml2text`, which is one loop over the pre-order walk (`Walk`),
  with the loop body's if-chain as `Visit`.
- `Trim`, `Strip`: trimming a sequence at both ends. `str.strip()` and
  `strip_list` are both instances.
- `PartNames`: the `word/header[0-9]*.xml` and `word/footer[0-9]*.xml`
  patterns, and the order in which parts are read.
- `Process`: the text part of `process`.
- `Images`: `os.path.splitext`, `os.path.basename`, the image-extension test,
  and the last-write-wins file map.

A page break is a `w:br` whose first attribute value is `page`. Split mode
returns only `texts` (`docx2txt/docx2txt.py:85`): the text after the last page
break is dropped, so N page breaks give N segments and a part without page
breaks gives none (`Transform.XmlToText`, `Segments.PiecesCount`,
`Transform.TrailingTextDroppedExample`).

## Model

| member | source | states |
|---|---|---|
| Names.QnOfPrefixed | docx2txt/docx2txt.py:41-50 | `qn("p:l")`, where neither side holds a colon, is `{uri}l` when `p` is in the namespace map and a failure when it is not |
| Names.QnWithoutColon | docx2txt/docx2txt.py:41-50 | `qn` of a tag without a colon fails |
| Names.QnOfSeveralColons | docx2txt/docx2txt.py:41-50 | `qn` of a tag with two colons or more fails |
| Names.QnOfWordTag | docx2txt/docx2txt.py:41-50 | `qn("w:" + l)` is the WordprocessingML Clark name of `l`; the five tag constants are therefore `qn("w:t")`, `qn("w:tab")`, `qn("w:br")`, `qn("w:cr")` and `qn("w:p")` |
| Names.RecognisedTagsDistinct | docx2txt/docx2txt.py:73-83 | the five Clark names compared against are pairwise different |
| Names.ClassifyRecognised | docx2txt/docx2txt.py:73-84 | the chain of tag comparisons sends each recognised Clark name to its own kind and every other name to `Other`; no earlier comparison shadows a later one |
| Xml.PreorderAllAppend | docx2txt/docx2txt.py:72 | walking two runs of sibling trees is walking one and then the other |
| Transform.Visit | docx2txt/docx2txt.py:73-84 | one loop step fails exactly on an attribute-less `w:br` in split mode; in split mode a page break closes the running text and opens an empty one; every other element appends its contribution (run text or "", tab, newline for `w:br`/`w:cr`, two newlines for `w:p`, nothing otherwise), including a `w:br` whose first attribute is not `page` |
| Transform.Walk | docx2txt/docx2txt.py:68-84 | the loop over a run of nodes fails exactly when split mode meets a bare break; without splitting the text is the nodes' contributions concatenated; with splitting the closed segments plus the running text are the run's segments as cut at page breaks (defined independently, from the front) |
| Transform.XmlToText | docx2txt/docx2txt.py:61-85 | without splitting the result is the tree's structural text (own contribution, then each child subtree in order) and never fails; with splitting it fails exactly when the walk meets a bare break, and otherwise returns one segment per page break, the segments closed by page breaks, whose newline-join is a prefix of the unsplit text |
| Transform.FlatTextOfPreorder | docx2txt/docx2txt.py:72-84 | concatenating contributions along `root.iter()` equals reading the tree structurally: an element's contribution comes before its descendants' text |
| Transform.ParagraphExample | docx2txt/docx2txt.py:73-84 | a `w:p` holding one run `Hello` reads as `"\n\nHello"` |
| Transform.TrailingTextDroppedExample | docx2txt/docx2txt.py:78-85 | in split mode, text after the last page break is not returned |
| Transform.PieceOfRun | docx2txt/docx2txt.py:73-84 | a non-page-break node before a run with no page break joins its contribution to that run's single segment |
| Segments.PiecesCount | docx2txt/docx2txt.py:78-80 | there is one more segment than there are page breaks, so the closed segments number exactly the page breaks |
| Segments.PiecesJoin | docx2txt/docx2txt.py:72-85 | when every boundary adds one newline (as a page break does without splitting), joining the segments with newlines gives the unsplit text |
| Segments.PiecesAtCut | docx2txt/docx2txt.py:78-80 | a page break cuts the segments into those before it followed by those after it |
| Segments.PiecesSnoc | docx2txt/docx2txt.py:73-84 | appending a node that is not a page break extends only the trailing segment, by the node's contribution |
| Segments.JoinLinesDropLast | docx2txt/docx2txt.py:85 | the newline-join of all segments but the last is a prefix of the newline-join of all of them |
| Segments.AccumulateStep | docx2txt/docx2txt.py:73-84 | the accumulator step for a non-break keeps the closed segments plus the running text equal to the segments of the prefix walked |
| Segments.CutStep | docx2txt/docx2txt.py:78-80 | the accumulator step for a page break appends the running text to the closed segments and restarts it empty, again matching the segments of the prefix walked |
| Segments.CompletedFacts | docx2txt/docx2txt.py:78-85 | the closed segments number the page breaks, and their newline-join is a prefix of the unsplit text |
| Segments.ConcatAppend | docx2txt/docx2txt.py:116-144 | concatenating over two runs is concatenating over each and joining |
| Trim.DropFrontSpec | docx2txt/docx2txt.py:92-93 | popping from the front keeps a suffix, drops only droppable elements, and stops at a non-droppable one |
| Trim.DropBackSpec | docx2txt/docx2txt.py:89-90 | popping from the back keeps a prefix, drops only droppable elements, and stops at a non-droppable one |
| Trim.BackThenFrontIsTrim | docx2txt/docx2txt.py:88-95 | back-then-front popping yields a contiguous slice with only droppable elements around it and non-droppable ends |
| Trim.FrontThenBackIsTrim | docx2txt/docx2txt.py:156 | front-then-back popping yields such a slice too |
| Trim.TrimUnique | docx2txt/docx2txt.py:88-95 | a sequence has only one such slice |
| Trim.TrimOrderIrrelevant | docx2txt/docx2txt.py:88-95 | popping the back first or the front first gives the same result |
| Trim.TrimIdempotent | docx2txt/docx2txt.py:88-95 | a trimmed sequence trims to itself |
| Trim.TrimEmptyIff | docx2txt/docx2txt.py:88-95 | trimming yields nothing exactly when every element is droppable |
| Strip.StripListIsTrim | docx2txt/docx2txt.py:88-95 | `strip_list` returns a contiguous slice of its input whose first and last elements are non-empty, every dropped element being `""` |
| Strip.StripListIdempotent | docx2txt/docx2txt.py:88-95 | applying `strip_list` twice equals applying it once |
| Strip.StripListEmptyIff | docx2txt/docx2txt.py:88-95 | `strip_list` returns `[]` exactly when every element is `""`, the empty list included |
| Strip.StripListExample | docx2txt/docx2txt.py:88-95 | `["", "A", "", "B", ""]` becomes `["A", "", "B"]`: the inner empty string stays |
| Strip.PyStripIsTrim | docx2txt/docx2txt.py:156 | `s.strip()` is the unique slice of `s` with only whitespace around it and non-whitespace ends |
| Strip.PyStripIdempotent | docx2txt/docx2txt.py:156 | stripping twice equals stripping once |
| Strip.PyStripEmptyIff | docx2txt/docx2txt.py:156 | a string strips to `""` exactly when it is all whitespace |
| Strip.PyStripExample | docx2txt/docx2txt.py:156 | `"\n\nHello world "` strips to `"Hello world"` |
| Strip.StripEach | docx2txt/docx2txt.py:156 | stripping each segment keeps the number of segments and their positions, each stripped on its own |
| Strip.WhitespaceSegmentSurvives | docx2txt/docx2txt.py:156 | a whitespace-only end segment survives `strip_list` and then becomes `""` |
| PartNames.DigitsAnyXmlIff | docx2txt/docx2txt.py:115-117 | the backtracking reading of `[0-9]*.xml`, anchored at the start only, matches exactly when the text after the prefix is zero or more digits, then any non-newline character, then `xml`, followed by anything |
| PartNames.PatternMatchesParts | docx2txt/docx2txt.py:115-138 | `word/header1.xml`, `word/header.xml`, `word/header12.xml` and `word/footer2.xml` are selected |
| PartNames.PatternMatchesLookAlikes | docx2txt/docx2txt.py:115-117 | the unescaped dot and the missing end anchor also select `word/header1xxml` and `word/header1.xml.bak` |
| PartNames.PatternRejects | docx2txt/docx2txt.py:115-138 | relationship files, `word/headerA.xml` and `word/document.xml` are not headers or footers |
| PartNames.FilterComplete | docx2txt/docx2txt.py:116-117 | the scan over the name list misses no matching name |
| PartNames.FilterAppend | docx2txt/docx2txt.py:116-117 | the scan keeps listing order: scanning a concatenation is concatenating the scans |
| PartNames.DocumentOrderMembers | docx2txt/docx2txt.py:115-138 | a name is read for text exactly when it is `word/document.xml` or a listed header or footer; the main document is read even when unlisted |
| PartNames.HeadersInListingOrder | docx2txt/docx2txt.py:116-138 | headers and footers keep listing order: those listed before a position come before those listed after it |
| Process.ExtractPart | docx2txt/docx2txt.py:117-123 | reading one part succeeds exactly when it is listed, parses, and (when splitting) has no bare break, and yields that part's text or closed segments |
| Process.JoinParts | docx2txt/docx2txt.py:113-144 | the loop over parts succeeds exactly when every part succeeds, and then yields the parts' text concatenated in order, or their segments joined in order |
| Process.ProcessText | docx2txt/docx2txt.py:106-156 | `process` fails exactly when some part in document order cannot be read (always when `word/document.xml` is missing); otherwise it returns the joined text stripped once, or `strip_list` of the joined segments with each survivor stripped |
| Process.AssembledTextOrder | docx2txt/docx2txt.py:113-144 | the unsplit text is the headers' text, then the main document's, then the footers' |
| Process.AssembledPagesOrder | docx2txt/docx2txt.py:113-144 | the segments are the headers' segments, then the main document's, then the footers' |
| Process.PagesOfPartsCount | docx2txt/docx2txt.py:113-144 | before trimming there are as many segments as page breaks over all parts read |
| Process.AllExtractableIff | docx2txt/docx2txt.py:113-144 | the loop's part-by-part success condition is success of every part in the list |
| Images.Basename | docx2txt/docx2txt.py:151 | the destination name is a slash-free suffix of the entry name |
| Images.Extension | docx2txt/docx2txt.py:149 | the extension is empty or a dot followed by dot-free, slash-free text ending the name |
| Images.ExtensionOfAppended | docx2txt/docx2txt.py:149 | appending `.x` (no dot or slash in `x`) gives extension `.x` when the base name before it is not dots only, and no extension when it is |
| Images.ExtensionStem | docx2txt/docx2txt.py:149 | a non-empty extension is preceded in the base name by something other than dots |
| Images.ImageEntryIff | docx2txt/docx2txt.py:149-150 | an entry is an image exactly when it ends in `.jpg`, `.jpeg`, `.png` or `.bmp` (case-sensitive) and what precedes that in its base name is neither empty nor dots only |
| Images.ImageInDirectory | docx2txt/docx2txt.py:148-151 | `dir/stem.ext` with an image extension and a stem not made of dots only is an image |
| Images.BasenameInDirectory | docx2txt/docx2txt.py:151 | the base name of `dir/rest` is `rest` |
| Images.HiddenFileExample | docx2txt/docx2txt.py:149-150 | `word/media/.png` has no extension and is not an image |
| Images.ImageWrites | docx2txt/docx2txt.py:148-153 | the loop's writes, in listing order: each write goes to the base name of an image entry of the archive and takes that entry's bytes |
| Images.FinalFiles | docx2txt/docx2txt.py:151-153 | every file this run writes holds what some write to that name supplied |
| Images.LaterEntryWins | docx2txt/docx2txt.py:148-153 | an image entry with no later image entry of the same base name is what the output directory holds under that name: of two colliding entries the later one in listing order wins |
| Images.ImageWritesComplete | docx2txt/docx2txt.py:148-153 | a write to the entry's base name happens for every image entry and for no other entry |
| Images.FinalFilesComplete | docx2txt/docx2txt.py:151-153 | every destination written to is in the final directory |
| Images.FinalFilesLastWins | docx2txt/docx2txt.py:148-153 | a destination holds the bytes of the last entry written to it: later entries overwrite earlier ones |

## Left out

- XML parsing (`ET.fromstring`, line 71) is not modelled: a part arrives as a parsed `Node`. A listed part that is not well-formed XML is a name absent from the archive's tree map.
- Reading the zip file (`zipfile.ZipFile`, `namelist`, `read`, `close`; lines 110-111, 155) is not modelled: the archive is a name list plus a name-to-tree map.
- The image bytes and the file writes (`open`, `write`, lines 152-153) are not modelled. The files this run writes are a map from base name to source entry; files already in `img_dir` before the run are not modelled. `os.path.join` with the directory is left out, and so is the `img_dir is None` switch.
- Images are modelled on their own. The model does not say that images are written only after every text part was read, and never when reading failed.
- Python's general regular-expression engine is not modelled, only the two fixed patterns.
- Windows path separators are not modelled: `Basename` and `Extension` follow the POSIX `os.path`.
- The `Tag` of each node stands for the outcome of comparing its Clark name (`Names.Classify`). Comments and processing instructions, which `ET.fromstring` drops, do not appear in trees.
- `process_args`, argparse, `os.path.exists`, `makedirs` and `sys.exit` (lines 15-38) are command-line plumbing and are not modelled. Neither is the `__main__` write to standard output (lines 159-162).
- The `typing` overloads (lines 53-58, 98-103) carry no behaviour and are not modelled.
- Process.ProcessText: does not say which error is reported when several parts fail, only that the call fails. The source raises at the first failing part in document order.
- Names.QnOfPrefixed: `qn` raises `ValueError` for a tag without exactly one colon and `KeyError` for an unknown prefix. Both are modelled as `None`, without telling them apart.

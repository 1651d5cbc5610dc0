/** `process`, text part: read every selected part of the package in
    document order, turn each into text (or page segments), join the results,
    and trim. */
module Process {
  import opened Wrappers
  import opened Xml
  import opened Segments
  import opened Transform
  import opened Strip
  import opened PartNames

  /** The package: the entry names in listing order, and the parsed tree of
      each entry whose bytes are well-formed XML. A listed name without a
      tree is a part that fails to parse. */
  datatype Archive = Archive(names: seq<string>, parts: map<string, Node>)

  /** `ET.fromstring(zipf.read(name))`. */
  function ReadPart(a: Archive, name: string): Result<Node, Error> {
    if name !in a.names then Failure(MissingPart(name))
    else if name !in a.parts then Failure(ParseError(name))
    else Success(a.parts[name])
  }

  /** A part the extractor gets through: it is listed, it parses, and in
      page-split mode its walk meets no attribute-less break. */
  predicate Extractable(a: Archive, name: string, splitPages: bool) {
    && name in a.names
    && name in a.parts
    && (splitPages ==> !SplitFails(a.parts[name]))
  }

  /** Every part in `order` gets through, stated one part at a time from
      the back, as the extractor's loop establishes it. */
  predicate AllExtractable(a: Archive, order: seq<string>, splitPages: bool) {
    order == [] || (AllExtractable(a, order[..|order| - 1], splitPages) && Extractable(a, order[|order| - 1], splitPages))
  }

  lemma AllExtractableSnoc(a: Archive, order: seq<string>, name: string, splitPages: bool)
    requires AllExtractable(a, order, splitPages) && Extractable(a, name, splitPages)
    ensures AllExtractable(a, order + [name], splitPages)
  {
  }

  lemma {:induction false} AllExtractableIff(a: Archive, order: seq<string>, splitPages: bool)
    ensures AllExtractable(a, order, splitPages) <==> forall i :: 0 <= i < |order| ==> Extractable(a, order[i], splitPages)
  {
    if order != [] {
      var init := order[..|order| - 1];
      AllExtractableIff(a, init, splitPages);
      assert forall i :: 0 <= i < |init| ==> init[i] == order[i];
    }
  }

  /** The unsplit text of one part; only read for parts that parse. */
  function PartText(a: Archive): string -> string {
    name => if name in a.parts then TreeText(a.parts[name]) else ""
  }

  /** The completed page segments of one part; only read for parts that
      parse. */
  function PartPages(a: Archive): string -> seq<string> {
    name => if name in a.parts then ClosedPages(Preorder(a.parts[name])) else []
  }

  /** The unsplit text of the parts in `order`, one after another. */
  function TextOfParts(a: Archive, order: seq<string>): string {
    Concat(order, PartText(a))
  }

  /** The completed page segments of the parts in `order`, one part's
      segments after another's. */
  function PagesOfParts(a: Archive, order: seq<string>): seq<string> {
    Concat(order, PartPages(a))
  }

  /** Total number of page breaks over the parts in `order`. */
  function PageBreaksOfParts(a: Archive, order: seq<string>): nat {
    if order == [] then 0
    else
      var name := order[|order| - 1];
      PageBreaksOfParts(a, order[..|order| - 1]) + if name in a.parts then CountPageBreaks(Preorder(a.parts[name])) else 0
  }

  /** One iteration of `process`'s loop over the part names: read and parse
      the part, then turn it into text. */
  method ExtractPart(a: Archive, name: string, splitPages: bool) returns (r: Result<Extracted, Error>)
    ensures r.Success? <==> Extractable(a, name, splitPages)
    ensures r.Success? && !splitPages ==> r.value == Single(PartText(a)(name))
    ensures r.Success? && splitPages ==> r.value == Paged(PartPages(a)(name))
  {
    var tree :- ReadPart(a, name);
    r := XmlToText(tree, splitPages);
  }

  /** The loop of `process` over a given list of part names: fails at the
      first part that cannot be extracted, and otherwise joins the parts'
      text (or their segments) in list order. */
  method JoinParts(a: Archive, order: seq<string>, splitPages: bool) returns (r: Result<Extracted, Error>)
    ensures r.Success? <==> AllExtractable(a, order, splitPages)
    ensures r.Success? && !splitPages ==> r.value == Single(TextOfParts(a, order))
    ensures r.Success? && splitPages ==> r.value == Paged(PagesOfParts(a, order))
  {
    var acc: Extracted := if splitPages then Paged([]) else Single("");
    var i := 0;
    while i < |order|
      invariant 0 <= i <= |order|
      invariant AllExtractable(a, order[..i], splitPages)
      invariant !splitPages ==> acc == Single(TextOfParts(a, order[..i]))
      invariant splitPages ==> acc == Paged(PagesOfParts(a, order[..i]))
    {
      var name := order[i];
      assert order[..i + 1] == order[..i] + [name];
      var part := ExtractPart(a, name, splitPages);
      if part.Failure? {
        AllExtractableIff(a, order, splitPages);
        return Failure(part.error);
      }
      AllExtractableSnoc(a, order[..i], name, splitPages);
      if splitPages {
        ConcatSnoc(order[..i], name, PartPages(a));
        acc := Paged(acc.pages + part.value.pages);
      } else {
        ConcatSnoc(order[..i], name, PartText(a));
        acc := Single(acc.text + part.value.text);
      }
      i := i + 1;
    }
    assert order[..i] == order;
    return Success(acc);
  }

  /** `process(docx, split_pages)` without image extraction. It fails exactly
      when some part in document order is unlisted, unparsable, or (when
      splitting) holds an attribute-less break; in particular it fails when
      the main document is missing. Otherwise it returns the joined text of
      the parts stripped once, or the joined completed segments of the parts
      with empty segments dropped from both ends and each segment stripped. */
  method ProcessText(a: Archive, splitPages: bool) returns (r: Result<Extracted, Error>)
    ensures r.Success? <==>
      forall i :: 0 <= i < |DocumentOrder(a.names)| ==> Extractable(a, DocumentOrder(a.names)[i], splitPages)
    ensures DocumentPart !in a.names ==> r.Failure?
    ensures r.Success? && !splitPages ==>
      r.value == Single(PyStrip(TextOfParts(a, DocumentOrder(a.names))))
    ensures r.Success? && splitPages ==>
      r.value == Paged(StripEach(StripList(PagesOfParts(a, DocumentOrder(a.names)))))
  {
    var order := DocumentOrder(a.names);
    var joined := JoinParts(a, order, splitPages);
    AllExtractableIff(a, order, splitPages);
    if joined.Failure? {
      if DocumentPart !in a.names {
        var k :| 0 <= k < |order| && order[k] == DocumentPart;
        assert !Extractable(a, order[k], splitPages);
      }
      return Failure(joined.error);
    }
    if splitPages {
      r := Success(Paged(StripEach(StripList(joined.value.pages))));
    } else {
      r := Success(Single(PyStrip(joined.value.text)));
    }
  }

  /** The unsplit text is the headers' text, then the main document's, then
      the footers'. */
  lemma AssembledTextOrder(a: Archive)
    requires DocumentPart in a.parts
    ensures TextOfParts(a, DocumentOrder(a.names))
      == TextOfParts(a, Filter(a.names, IsHeaderPart)) + TreeText(a.parts[DocumentPart])
         + TextOfParts(a, Filter(a.names, IsFooterPart))
  {
    var headers := Filter(a.names, IsHeaderPart);
    var footers := Filter(a.names, IsFooterPart);
    ConcatAppend(headers, [DocumentPart], PartText(a));
    ConcatSingle(DocumentPart, PartText(a));
    ConcatAppend(headers + [DocumentPart], footers, PartText(a));
  }

  /** The page segments are the headers' segments, then the main
      document's, then the footers'. */
  lemma AssembledPagesOrder(a: Archive)
    requires DocumentPart in a.parts
    ensures PagesOfParts(a, DocumentOrder(a.names))
      == PagesOfParts(a, Filter(a.names, IsHeaderPart)) + ClosedPages(Preorder(a.parts[DocumentPart]))
         + PagesOfParts(a, Filter(a.names, IsFooterPart))
  {
    var headers := Filter(a.names, IsHeaderPart);
    var footers := Filter(a.names, IsFooterPart);
    ConcatAppend(headers, [DocumentPart], PartPages(a));
    ConcatSingle(DocumentPart, PartPages(a));
    ConcatAppend(headers + [DocumentPart], footers, PartPages(a));
  }

  /** In page-split mode every part contributes one segment per page break
      it contains, so before trimming there are as many segments as page
      breaks over all parts. */
  lemma {:induction false} PagesOfPartsCount(a: Archive, order: seq<string>)
    ensures |PagesOfParts(a, order)| == PageBreaksOfParts(a, order)
  {
    if order != [] {
      var name := order[|order| - 1];
      PagesOfPartsCount(a, order[..|order| - 1]);
      if name in a.parts {
        PiecesCount(Preorder(a.parts[name]), Contribution, IsPageBreak);
      }
    }
  }
}

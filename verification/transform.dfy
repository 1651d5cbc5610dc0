/** `xml2text`: one forward pass over the pre-order walk of a part's tree,
    turning recognised elements into text, and in page-split mode cutting the
    text at page breaks. */
module Transform {
  import opened Wrappers
  import opened Names
  import opened Xml
  import opened Segments

  /** What one part yields: a single string, or the page segments. */
  datatype Extracted = Single(text: string) | Paged(pages: seq<string>)

  /** The text an element adds to the running accumulator: a run's text (or
      nothing when it has none), a tab, a newline for a line or carriage
      break, two newlines for a paragraph, and nothing for any other tag.
      A paragraph's newlines are added when the paragraph itself is met,
      before any of its descendants. */
  function Contribution(n: Node): string {
    match n.tag
    case TextRun => n.text.GetOr("")
    case Tab => "\t"
    case Break => "\n"
    case CarriageReturn => "\n"
    case Paragraph => "\n\n"
    case Other => ""
  }

  /** A break whose first attribute value is `page`; no other attribute is
      looked at. */
  predicate IsPageBreak(n: Node) {
    n.tag == Break && |n.attrs| > 0 && n.attrs[0].1 == "page"
  }

  /** A break with no attributes at all: splitting fails on it. */
  predicate IsBareBreak(n: Node) {
    n.tag == Break && |n.attrs| == 0
  }

  predicate HasBareBreak(ns: seq<Node>) {
    exists i :: 0 <= i < |ns| && IsBareBreak(ns[i])
  }

  /** Splitting the text of the tree under `root` fails: its walk meets a
      bare break. */
  predicate SplitFails(root: Node) {
    HasBareBreak(Preorder(root))
  }

  /** The contributions of a run of nodes, in order. */
  function FlatText(ns: seq<Node>): string {
    Concat(ns, Contribution)
  }

  /** The segments of a run of nodes, cut at page breaks. */
  function PagePieces(ns: seq<Node>): seq<string> {
    Pieces(ns, Contribution, IsPageBreak)
  }

  /** The segments closed by a page break. */
  function ClosedPages(ns: seq<Node>): seq<string> {
    Completed(ns, Contribution, IsPageBreak)
  }

  /** Number of page breaks in a run of nodes. */
  function CountPageBreaks(ns: seq<Node>): nat {
    CountCuts(ns, IsPageBreak)
  }

  /** The text of a tree read structurally: the element's own contribution,
      then the text of each child subtree in order. */
  function TreeText(n: Node): string
    decreases n
  {
    Contribution(n) + ForestText(n.children)
  }

  function ForestText(ns: seq<Node>): string
    decreases ns
  {
    if ns == [] then "" else ForestText(ns[..|ns| - 1]) + TreeText(ns[|ns| - 1])
  }

  /** Concatenating contributions along `root.iter()` reads the tree
      structurally: each element's contribution comes before its children's
      text, which come in document order. */
  lemma {:induction false} FlatTextOfPreorder(n: Node)
    ensures FlatText(Preorder(n)) == TreeText(n)
    decreases n
  {
    var rest := PreorderAll(n.children);
    assert Preorder(n) == [n] + rest;
    ConcatSingle(n, Contribution);
    ConcatAppend([n], rest, Contribution);
    FlatTextOfPreorderAll(n.children);
  }

  lemma {:induction false} FlatTextOfPreorderAll(ns: seq<Node>)
    ensures FlatText(PreorderAll(ns)) == ForestText(ns)
    decreases ns
  {
    if ns != [] {
      var last := ns[|ns| - 1];
      ConcatAppend(PreorderAll(ns[..|ns| - 1]), Preorder(last), Contribution);
      FlatTextOfPreorderAll(ns[..|ns| - 1]);
      FlatTextOfPreorder(last);
    }
  }

  /** One iteration of the extractor's loop: the if-chain over the tag of
      the element met, acting on the closed segments and the running text.
      A bare break fails in split mode; a page break closes the running text
      in split mode; every other element appends its contribution. */
  method Visit(child: Node, splitPages: bool, closed: seq<string>, running: string)
    returns (r: Result<(seq<string>, string), Error>)
    ensures r.Failure? <==> splitPages && IsBareBreak(child)
    ensures r.Failure? ==> r.error == BareBreak
    ensures r.Success? && splitPages && IsPageBreak(child) ==> r.value == (closed + [running], "")
    ensures r.Success? && !(splitPages && IsPageBreak(child)) ==> r.value == (closed, running + Contribution(child))
  {
    var texts, text := closed, running;
    if child.tag == TextRun {
      text := text + child.text.GetOr("");
    } else if child.tag == Tab {
      text := text + "\t";
    } else if splitPages && child.tag == Break && |child.attrs| == 0 {
      return Failure(BareBreak);
    } else if splitPages && child.tag == Break && child.attrs[0].1 == "page" {
      texts := texts + [text];
      text := "";
    } else if child.tag == Break || child.tag == CarriageReturn {
      text := text + "\n";
    } else if child.tag == Paragraph {
      text := text + "\n\n";
    } else {
      assert running + Contribution(child) == running;
    }
    return Success((texts, text));
  }

  /** The loop of `xml2text` over a run of nodes: the closed segments and
      the running text after visiting all of them, or the failure on a bare
      break in split mode. Without splitting no segment is ever closed and
      the running text is the concatenated contributions; with splitting the
      closed segments and the running text are the run's segments. */
  method Walk(nodes: seq<Node>, splitPages: bool) returns (r: Result<(seq<string>, string), Error>)
    ensures r.Failure? <==> splitPages && HasBareBreak(nodes)
    ensures r.Failure? ==> r.error == BareBreak
    ensures r.Success? && !splitPages ==> r.value == ([], FlatText(nodes))
    ensures r.Success? && splitPages ==> r.value.0 + [r.value.1] == PagePieces(nodes)
  {
    var text := "";
    var texts: seq<string> := [];
    var i := 0;
    while i < |nodes|
      invariant 0 <= i <= |nodes|
      invariant !splitPages ==> text == FlatText(nodes[..i]) && texts == []
      invariant splitPages ==> texts + [text] == PagePieces(nodes[..i])
      invariant splitPages ==> forall j :: 0 <= j < i ==> !IsBareBreak(nodes[j])
    {
      var child := nodes[i];
      assert nodes[..i + 1] == nodes[..i] + [child];
      var step := Visit(child, splitPages, texts, text);
      if step.Failure? {
        assert IsBareBreak(nodes[i]);
        return Failure(BareBreak);
      }
      if splitPages && IsPageBreak(child) {
        CutStep(nodes[..i], child, texts, text, Contribution, IsPageBreak);
      } else if splitPages {
        AccumulateStep(nodes[..i], child, texts, text, Contribution, IsPageBreak);
      } else {
        ConcatSnoc(nodes[..i], child, Contribution);
      }
      texts, text := step.value.0, step.value.1;
      i := i + 1;
    }
    assert nodes[..i] == nodes;
    return Success((texts, text));
  }

  /** `xml2text(xml, split_pages)` on an already parsed tree. Without
      splitting it yields the structural text of the tree and never fails.
      With splitting it fails exactly when the walk meets a break that has
      no attributes; otherwise it yields one segment per page break, each the
      text since the previous break, and the text after the last page break
      is dropped. */
  method XmlToText(root: Node, splitPages: bool) returns (r: Result<Extracted, Error>)
    ensures !splitPages ==> r == Success(Single(TreeText(root)))
    ensures splitPages ==> (r.Failure? <==> SplitFails(root))
    ensures r.Failure? ==> r.error == BareBreak
    ensures splitPages && r.Success? ==> r.value == Paged(ClosedPages(Preorder(root)))
    ensures splitPages && r.Success? ==> |r.value.pages| == CountPageBreaks(Preorder(root))
    ensures splitPages && r.Success? ==> JoinLines(r.value.pages) <= TreeText(root)
  {
    var nodes := Preorder(root);
    var walked :- Walk(nodes, splitPages);
    FlatTextOfPreorder(root);
    if splitPages {
      var p := walked.0 + [walked.1];
      assert p[..|p| - 1] == walked.0;
      assert forall j :: 0 <= j < |nodes| && IsPageBreak(nodes[j]) ==> Contribution(nodes[j]) == "\n";
      CompletedFacts(nodes, Contribution, IsPageBreak);
      return Success(Paged(walked.0));
    }
    return Success(Single(walked.1));
  }

  /** A node that is not a page break, put before a run without page
      breaks, joins its contribution to the run's single segment. */
  lemma PieceOfRun(n: Node, rest: seq<Node>)
    requires !IsPageBreak(n) && |PagePieces(rest)| == 1
    ensures PagePieces([n] + rest) == [Contribution(n) + PagePieces(rest)[0]]
  {
  }

  /** A paragraph holding one run: the paragraph's two newlines come before
      the run's text. */
  lemma ParagraphExample()
    ensures TreeText(Node(Paragraph, None, [], [Node(TextRun, Some("Hello"), [], [])])) == "\n\nHello"
  {
  }

  /** Page splitting keeps the text before a page break and drops the text
      after the last one: a paragraph `A`, a page break, then `B` yields the
      single segment `"\n\nA"`. */
  lemma TrailingTextDroppedExample()
    ensures var a := Node(TextRun, Some("A"), [], []);
      var br := Node(Break, None, [("w:type", "page")], []);
      var b := Node(TextRun, Some("B"), [], []);
      var p := Node(Paragraph, None, [], []);
      ClosedPages([p, a, br, b]) == ["\n\nA"]
  {
    var a := Node(TextRun, Some("A"), [], []);
    var br := Node(Break, None, [("w:type", "page")], []);
    var b := Node(TextRun, Some("B"), [], []);
    var p := Node(Paragraph, None, [], []);
    PiecesAtCut([p, a], br, [b], Contribution, IsPageBreak);
    assert [p, a] + [br] + [b] == [p, a, br, b];
    assert PagePieces([b]) == ["B"] by {
      assert PagePieces([]) == [""];
      PieceOfRun(b, []);
      assert [b] + [] == [b];
      assert Contribution(b) == "B";
      assert "B" + "" == "B";
    }
    assert PagePieces([p, a]) == ["\n\nA"] by {
      assert PagePieces([]) == [""];
      PieceOfRun(a, []);
      assert [a] + [] == [a];
      assert "A" + "" == "A";
      PieceOfRun(p, [a]);
      assert [p] + [a] == [p, a];
      assert "\n\n" + "A" == "\n\nA";
    }
  }
}

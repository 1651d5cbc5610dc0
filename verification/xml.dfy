/** The parsed form of one XML part, as the extractor sees it after
    `ET.fromstring`: an element's tag (classified against the recognised
    Clark names), its text, its attributes in document order, and its child
    elements. */
module Xml {
  import opened Wrappers
  import opened Names

  datatype Node = Node(
    tag: Tag,
    text: Option<string>,
    attrs: seq<(string, string)>,
    children: seq<Node>)

  /** The ways extraction can fail. `MissingPart` is a name the archive does
      not list, `ParseError` a listed part whose bytes are not well-formed
      XML, and `BareBreak` a break element without attributes met while
      splitting pages (the source indexes the first attribute value). */
  datatype Error = MissingPart(name: string) | ParseError(name: string) | BareBreak

  /** `root.iter()`: the element itself, then the pre-order walk of each of
      its children in document order. */
  function Preorder(n: Node): (r: seq<Node>)
    decreases n
    ensures |r| >= 1 && r[0] == n
  {
    [n] + PreorderAll(n.children)
  }

  /** The pre-order walks of a sequence of sibling trees, one after another. */
  function PreorderAll(ns: seq<Node>): (r: seq<Node>)
    decreases ns
    ensures |r| >= |ns|
  {
    if ns == [] then [] else PreorderAll(ns[..|ns| - 1]) + Preorder(ns[|ns| - 1])
  }

  /** Walking two runs of siblings is walking one and then the other. */
  lemma {:induction false} PreorderAllAppend(a: seq<Node>, b: seq<Node>)
    ensures PreorderAll(a + b) == PreorderAll(a) + PreorderAll(b)
    decreases |b|
  {
    if b == [] {
      assert a + b == a;
    } else {
      var b' := b[..|b| - 1];
      assert (a + b)[..|a + b| - 1] == a + b';
      assert (a + b)[|a + b| - 1] == b[|b| - 1];
      PreorderAllAppend(a, b');
    }
  }
}

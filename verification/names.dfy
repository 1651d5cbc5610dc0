/** Qualified tag names. The extractor compares every element tag with the
    Clark-notation name `{namespace-uri}local` that `qn` builds from a
    prefixed name such as `w:t`, looking the prefix up in a one-entry
    namespace map. The rest of the model works with `Tag`, the outcome of
    those comparisons. */
module Names {
  import opened Wrappers

  /** The five element kinds the extractor recognises, and everything else. */
  datatype Tag = TextRun | Tab | Break | CarriageReturn | Paragraph | Other

  /** The WordprocessingML main namespace, the only entry of the prefix map. */
  const WordNamespace: string := "http://schemas.openxmlformats.org/wordprocessingml/2006/main"

  const NamespaceMap: map<string, string> := map["w" := WordNamespace]

  /** Clark notation: the namespace URI in braces, then the local name. */
  function Clark(uri: string, local: string): string {
    "{" + uri + "}" + local
  }

  /** Index of the first occurrence of `c` in `s`, if any. */
  function FirstIndex(s: string, c: char): (r: Option<nat>)
    ensures r.None? <==> c !in s
    ensures r.Some? ==> r.value < |s| && s[r.value] == c && c !in s[..r.value]
  {
    if s == [] then None
    else if s[0] == c then Some(0)
    else
      match FirstIndex(s[1..], c)
      case None => None
      case Some(i) =>
        assert s[..i + 1] == [s[0]] + s[1..][..i];
        Some(i + 1)
  }

  /** `prefix, local = tag.split(':')`: succeeds only when the tag holds
      exactly one colon, and yields the text on either side of it. */
  function SplitColon(tag: string): (r: Option<(string, string)>)
    ensures r.Some? ==> tag == r.value.0 + ":" + r.value.1
    ensures r.Some? ==> ':' !in r.value.0 && ':' !in r.value.1
  {
    match FirstIndex(tag, ':')
    case None => None
    case Some(i) =>
      if ':' in tag[i + 1..] then None
      else
        assert tag == tag[..i] + ":" + tag[i + 1..];
        Some((tag[..i], tag[i + 1..]))
  }

  /** `qn`: the Clark name of a prefixed tag; `None` where the source raises
      (no colon or several colons, or a prefix missing from the map). */
  function Qn(tag: string): (r: Option<string>)
    ensures r.Some? ==> exists p, l :: tag == p + ":" + l && p in NamespaceMap && r.value == Clark(NamespaceMap[p], l)
  {
    match SplitColon(tag)
    case None => None
    case Some((prefix, local)) =>
      if prefix in NamespaceMap then Some(Clark(NamespaceMap[prefix], local)) else None
  }

  /** The five tags the extractor recognises. */
  const TextTag: string := Clark(WordNamespace, "t")
  const TabTag: string := Clark(WordNamespace, "tab")
  const BreakTag: string := Clark(WordNamespace, "br")
  const CarriageReturnTag: string := Clark(WordNamespace, "cr")
  const ParagraphTag: string := Clark(WordNamespace, "p")

  /** `SplitColon` succeeds on every tag with exactly one colon. */
  lemma SplitColonOfOneColon(p: string, l: string)
    requires ':' !in p && ':' !in l
    ensures SplitColon(p + ":" + l) == Some((p, l))
  {
    var tag := p + ":" + l;
    assert tag[|p|] == ':';
    assert tag[..|p|] == p;
    assert tag[|p| + 1..] == l;
  }

  /** `qn` on a well-formed prefixed name: the mapped namespace when the
      prefix is known, and a failure otherwise. */
  lemma QnOfPrefixed(p: string, l: string)
    requires ':' !in p && ':' !in l
    ensures p in NamespaceMap ==> Qn(p + ":" + l) == Some(Clark(NamespaceMap[p], l))
    ensures p !in NamespaceMap ==> Qn(p + ":" + l) == None
  {
    SplitColonOfOneColon(p, l);
  }

  /** `qn` on a tag without a colon fails, as the unpacking of `split(':')`
      into two names raises. */
  lemma QnWithoutColon(tag: string)
    requires ':' !in tag
    ensures Qn(tag) == None
  {
  }

  /** `qn` on a tag with two colons or more (at `i` and `j`) fails, as the
      unpacking of `split(':')` into two names raises. */
  lemma QnOfSeveralColons(tag: string, i: nat, j: nat)
    requires i < j < |tag| && tag[i] == ':' && tag[j] == ':'
    ensures Qn(tag) == None
  {
    var k := FirstIndex(tag, ':').value;
    assert k <= i;
    assert tag[k + 1..][j - k - 1] == ':';
  }

  /** `qn("w:" + local)` is the WordprocessingML Clark name of `local`; in
      particular the five constants below are what `qn` returns for `w:t`,
      `w:tab`, `w:br`, `w:cr` and `w:p`. */
  lemma QnOfWordTag(l: string)
    requires ':' !in l
    ensures Qn("w:" + l) == Some(Clark(WordNamespace, l))
  {
    assert "w:" + l == "w" + ":" + l;
    QnOfPrefixed("w", l);
  }

  /** What the extractor's chain of tag comparisons makes of a Clark name. */
  function Classify(clark: string): Tag {
    if clark == TextTag then TextRun
    else if clark == TabTag then Tab
    else if clark == BreakTag then Break
    else if clark == CarriageReturnTag then CarriageReturn
    else if clark == ParagraphTag then Paragraph
    else Other
  }

  /** Clark names in one namespace differ whenever their local names do. */
  lemma ClarkInjective(uri: string, a: string, b: string)
    requires a != b
    ensures Clark(uri, a) != Clark(uri, b)
  {
    var n := |uri| + 2;
    assert Clark(uri, a)[n..] == a;
    assert Clark(uri, b)[n..] == b;
  }

  /** The five recognised tags are pairwise distinct, so the extractor's
      chain of comparisons classifies every tag at most once. */
  lemma RecognisedTagsDistinct()
    ensures TextTag != TabTag && TextTag != BreakTag && TextTag != CarriageReturnTag && TextTag != ParagraphTag
    ensures TabTag != BreakTag && TabTag != CarriageReturnTag && TabTag != ParagraphTag
    ensures BreakTag != CarriageReturnTag && BreakTag != ParagraphTag
    ensures CarriageReturnTag != ParagraphTag
  {
    var w := WordNamespace;
    ClarkInjective(w, "t", "tab");
    ClarkInjective(w, "t", "br");
    ClarkInjective(w, "t", "cr");
    ClarkInjective(w, "t", "p");
    ClarkInjective(w, "tab", "br");
    ClarkInjective(w, "tab", "cr");
    ClarkInjective(w, "tab", "p");
    ClarkInjective(w, "br", "cr");
    ClarkInjective(w, "br", "p");
    ClarkInjective(w, "cr", "p");
  }

  /** The chain of comparisons sends each recognised tag to its own kind
      and every other name to `Other`: no comparison shadows a later one. */
  lemma ClassifyRecognised(clark: string)
    ensures Classify(clark) == TextRun <==> clark == TextTag
    ensures Classify(clark) == Tab <==> clark == TabTag
    ensures Classify(clark) == Break <==> clark == BreakTag
    ensures Classify(clark) == CarriageReturn <==> clark == CarriageReturnTag
    ensures Classify(clark) == Paragraph <==> clark == ParagraphTag
    ensures Classify(clark) == Other <==> clark !in {TextTag, TabTag, BreakTag, CarriageReturnTag, ParagraphTag}
  {
    RecognisedTagsDistinct();
  }
}

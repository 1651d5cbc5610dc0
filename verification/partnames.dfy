/** Which archive entries contribute text, and in what order: every entry
    matching the header pattern in archive listing order, then the main
    document part, then every entry matching the footer pattern in listing
    order. */
module PartNames {

  const DocumentPart: string := "word/document.xml"
  const HeaderPrefix: string := "word/header"
  const FooterPrefix: string := "word/footer"

  predicate IsDigit(c: char) {
    '0' <= c <= '9'
  }

  predicate AllDigits(s: string) {
    forall k :: 0 <= k < |s| ==> IsDigit(s[k])
  }

  /** `re.match('[0-9]*.xml', rest)`: some run of digits, then any one
      character other than a newline (the dot is not escaped), then `xml`;
      anchored at the start only, so anything may follow. Written as the
      regular-expression engine explores it: try the tail here, or consume
      one more digit. */
  predicate DigitsAnyXml(rest: string) {
    || (|rest| >= 4 && rest[0] != '\n' && rest[1..4] == "xml")
    || (|rest| >= 1 && IsDigit(rest[0]) && DigitsAnyXml(rest[1..]))
  }

  /** The pattern as a closed condition: `k` digits, a non-newline, `xml`. */
  predicate DigitsAnyXmlAt(rest: string, k: nat) {
    k + 4 <= |rest| && AllDigits(rest[..k]) && rest[k] != '\n' && rest[k + 1..k + 4] == "xml"
  }

  /** The backtracking reading and the closed reading agree. */
  lemma {:induction false} DigitsAnyXmlIff(rest: string)
    ensures DigitsAnyXml(rest) <==> exists k: nat :: DigitsAnyXmlAt(rest, k)
  {
    if DigitsAnyXml(rest) {
      if |rest| >= 4 && rest[0] != '\n' && rest[1..4] == "xml" {
        assert DigitsAnyXmlAt(rest, 0);
      } else {
        DigitsAnyXmlIff(rest[1..]);
        var k: nat :| DigitsAnyXmlAt(rest[1..], k);
        assert rest[..k + 1] == [rest[0]] + rest[1..][..k];
        assert DigitsAnyXmlAt(rest, k + 1);
      }
    }
    if exists k: nat :: DigitsAnyXmlAt(rest, k) {
      var k: nat :| DigitsAnyXmlAt(rest, k);
      if k > 0 {
        assert rest[..k][0] == rest[0];
        assert rest[1..][..k - 1] == rest[..k][1..];
        assert DigitsAnyXmlAt(rest[1..], k - 1);
        DigitsAnyXmlIff(rest[1..]);
      }
    }
  }

  /** `re.match(prefix + '[0-9]*.xml', name)`. */
  predicate MatchesPartPattern(name: string, prefix: string) {
    |prefix| <= |name| && name[..|prefix|] == prefix && DigitsAnyXml(name[|prefix|..])
  }

  predicate IsHeaderPart(name: string) {
    MatchesPartPattern(name, HeaderPrefix)
  }

  predicate IsFooterPart(name: string) {
    MatchesPartPattern(name, FooterPrefix)
  }

  /** The entries of `names` satisfying `p`, in their original order. */
  function Filter(names: seq<string>, p: string -> bool): (r: seq<string>)
    ensures |r| <= |names|
    ensures forall i :: 0 <= i < |r| ==> p(r[i]) && r[i] in names
  {
    if names == [] then []
    else
      var last := names[|names| - 1];
      Filter(names[..|names| - 1], p) + if p(last) then [last] else []
  }

  /** Filtering keeps order: filtering a concatenation is concatenating the
      filtered halves. */
  lemma {:induction false} FilterAppend(x: seq<string>, y: seq<string>, p: string -> bool)
    ensures Filter(x + y, p) == Filter(x, p) + Filter(y, p)
    decreases |y|
  {
    if y == [] {
      assert x + y == x;
    } else {
      var y' := y[..|y| - 1];
      assert (x + y)[..|x + y| - 1] == x + y';
      assert (x + y)[|x + y| - 1] == y[|y| - 1];
      FilterAppend(x, y', p);
    }
  }

  /** Filtering loses nothing that satisfies the predicate. */
  lemma {:induction false} FilterComplete(names: seq<string>, p: string -> bool, name: string)
    requires name in names && p(name)
    ensures name in Filter(names, p)
  {
    var last := names[|names| - 1];
    if name != last {
      assert name in names[..|names| - 1];
      FilterComplete(names[..|names| - 1], p, name);
    }
  }

  /** Header parts in listing order, the main document, footer parts in
      listing order. */
  function DocumentOrder(names: seq<string>): (r: seq<string>)
    ensures DocumentPart in r
  {
    var headers := Filter(names, IsHeaderPart);
    assert (headers + [DocumentPart])[|headers|] == DocumentPart;
    headers + [DocumentPart] + Filter(names, IsFooterPart)
  }

  /** An entry takes part in the text exactly when it is the main document,
      a header or a footer, and the main document is there whether or not
      the archive lists it. */
  lemma DocumentOrderMembers(names: seq<string>, name: string)
    ensures name in DocumentOrder(names) <==>
      name == DocumentPart || (name in names && (IsHeaderPart(name) || IsFooterPart(name)))
  {
    if name in names && IsHeaderPart(name) {
      FilterComplete(names, IsHeaderPart, name);
    }
    if name in names && IsFooterPart(name) {
      FilterComplete(names, IsFooterPart, name);
    }
  }

  /** Headers (and likewise footers) keep the archive's listing order: those
      listed before position `i` come before those listed from `i` on. */
  lemma HeadersInListingOrder(names: seq<string>, i: nat)
    requires i <= |names|
    ensures Filter(names, IsHeaderPart) == Filter(names[..i], IsHeaderPart) + Filter(names[i..], IsHeaderPart)
    ensures Filter(names, IsFooterPart) == Filter(names[..i], IsFooterPart) + Filter(names[i..], IsFooterPart)
  {
    assert names == names[..i] + names[i..];
    FilterAppend(names[..i], names[i..], IsHeaderPart);
    FilterAppend(names[..i], names[i..], IsFooterPart);
  }

  /** The usual part names match. */
  lemma PatternMatchesParts()
    ensures IsHeaderPart("word/header1.xml") && IsHeaderPart("word/header.xml")
    ensures IsHeaderPart("word/header12.xml") && IsFooterPart("word/footer2.xml")
  {
  }

  /** Because the dot is unescaped and only the start is anchored,
      `word/header1xxml` and `word/header1.xml.bak` match as well. */
  lemma PatternMatchesLookAlikes()
    ensures IsHeaderPart("word/header1xxml") && IsHeaderPart("word/header1.xml.bak")
  {
  }

  /** Relationship files, a non-digit after the prefix, and the main
      document do not match. */
  lemma PatternRejects()
    ensures !IsHeaderPart("word/_rels/header1.xml.rels") && !IsHeaderPart("word/headerA.xml")
    ensures !IsHeaderPart(DocumentPart) && !IsFooterPart(DocumentPart)
  {
    assert "word/_rels/header1.xml.rels"[..11] == "word/_rels/";
    assert "word/headerA.xml"[11..] == "A.xml";
    assert "A.xml"[1..4] == ".xm";
    assert DocumentPart[..11] == "word/docume";
  }
}

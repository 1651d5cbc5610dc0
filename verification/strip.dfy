/** The final clean-up of extracted text: Python's `str.strip()` for a
    string, and `strip_list`, which removes empty strings from both ends of a
    list of page segments. */
module Strip {
  import opened Trim

  /** The characters `str.strip()` removes when called without arguments:
      those Python's `str.isspace` accepts. */
  predicate IsWhitespace(c: char) {
    || ('\t' <= c <= '\r')
    || ('\U{1C}' <= c <= '\U{1F}')
    || c == ' '
    || c == '\U{85}'
    || c == '\U{A0}'
    || c == '\U{1680}'
    || ('\U{2000}' <= c <= '\U{200A}')
    || c == '\U{2028}'
    || c == '\U{2029}'
    || c == '\U{202F}'
    || c == '\U{205F}'
    || c == '\U{3000}'
  }

  /** `s.strip()`: scans whitespace off the front, then off the back. The
      result is the unique trim of `s` by whitespace. */
  function PyStrip(s: string): string {
    DropBack(DropFront(s, IsWhitespace), IsWhitespace)
  }

  /** `s.strip()` is the trim of `s` by whitespace. */
  lemma PyStripIsTrim(s: string)
    ensures IsTrimOf(PyStrip(s), s, IsWhitespace)
  {
    FrontThenBackIsTrim(s, IsWhitespace);
  }

  predicate IsEmptyString(t: string) {
    t == ""
  }

  /** `strip_list(lst)`: pops empty strings off the end, then off the front.
      The result is the unique trim of `lst` by emptiness: a contiguous slice
      whose first and last elements are non-empty, with only empty strings
      dropped around it. */
  function StripList(lst: seq<string>): seq<string> {
    DropFront(DropBack(lst, IsEmptyString), IsEmptyString)
  }

  /** `strip_list(lst)` is the trim of `lst` by emptiness. */
  lemma StripListIsTrim(lst: seq<string>)
    ensures IsTrimOf(StripList(lst), lst, IsEmptyString)
  {
    BackThenFrontIsTrim(lst, IsEmptyString);
  }

  /** `[t.strip() for t in ss]`. */
  function StripEach(ss: seq<string>): (r: seq<string>)
    ensures |r| == |ss|
    ensures forall i :: 0 <= i < |ss| ==> r[i] == PyStrip(ss[i])
  {
    if ss == [] then [] else [PyStrip(ss[0])] + StripEach(ss[1..])
  }

  /** Stripping a stripped string changes nothing. */
  lemma PyStripIdempotent(s: string)
    ensures PyStrip(PyStrip(s)) == PyStrip(s)
  {
    var r := PyStrip(s);
    TrimOrderIrrelevant(s, IsWhitespace);
    TrimIdempotent(s, IsWhitespace);
    TrimOrderIrrelevant(r, IsWhitespace);
  }

  /** A string strips to nothing exactly when it is all whitespace. */
  lemma PyStripEmptyIff(s: string)
    ensures PyStrip(s) == "" <==> AllDroppable(s, IsWhitespace)
  {
    TrimOrderIrrelevant(s, IsWhitespace);
    TrimEmptyIff(s, IsWhitespace);
  }

  /** Applying `strip_list` twice is applying it once. */
  lemma StripListIdempotent(lst: seq<string>)
    ensures StripList(StripList(lst)) == StripList(lst)
  {
    TrimIdempotent(lst, IsEmptyString);
  }

  /** A list of empty strings only (including the empty list) becomes `[]`,
      and only such a list does. */
  lemma StripListEmptyIff(lst: seq<string>)
    ensures StripList(lst) == [] <==> AllDroppable(lst, IsEmptyString)
  {
    TrimEmptyIff(lst, IsEmptyString);
  }

  /** Empty strings inside the list keep their place. */
  lemma StripListExample()
    ensures StripList(["", "A", "", "B", ""]) == ["A", "", "B"]
  {
    var s := ["", "A", "", "B", ""];
    var r := ["A", "", "B"];
    assert r == s[1..4];
    assert TrimAt(r, s, 1, IsEmptyString);
    StripListIsTrim(s);
    TrimUnique(StripList(s), r, s, IsEmptyString);
  }

  /** Leading newlines and trailing blanks go, inner text stays. */
  lemma PyStripExample()
    ensures PyStrip("\n\nHello world ") == "Hello world"
  {
  }

  /** In split mode an end segment made only of whitespace is not removed
      by `strip_list` (it is not empty) and then strips to `""`. */
  lemma WhitespaceSegmentSurvives()
    ensures StripEach(StripList(["A", " "])) == ["A", ""]
  {
  }
}

/** Text assembled from a run of items, each adding a sequence, and the same
    run cut into segments at boundary items. The extractor's walk is one
    instance: items are elements, an element adds its text, and a boundary
    is a page break. Stated here for any item type, so that the facts about
    concatenation and cutting do not depend on what each item adds. */
module Segments {

  /** What the items add, one after another. */
  function Concat<T, U>(s: seq<T>, f: T -> seq<U>): seq<U> {
    if s == [] then [] else Concat(s[..|s| - 1], f) + f(s[|s| - 1])
  }

  /** Number of boundary items. */
  function CountCuts<T>(s: seq<T>, cut: T -> bool): nat {
    if s == [] then 0 else (if cut(s[0]) then 1 else 0) + CountCuts(s[1..], cut)
  }

  /** `"\n".join(ss)`. */
  function JoinLines(ss: seq<string>): string {
    if ss == [] then ""
    else if |ss| == 1 then ss[0]
    else ss[0] + "\n" + JoinLines(ss[1..])
  }

  /** The segments of a run, cut at every boundary: the text before the
      first boundary, the text between consecutive boundaries, and the text
      after the last one. A boundary adds nothing to either side. Defined
      from the front, independently of any left-to-right accumulation. */
  function Pieces<T>(s: seq<T>, f: T -> string, cut: T -> bool): (r: seq<string>)
    ensures |r| >= 1
  {
    if s == [] then [""]
    else
      var rest := Pieces(s[1..], f, cut);
      if cut(s[0]) then [""] + rest
      else [f(s[0]) + rest[0]] + rest[1..]
  }

  /** The segments closed by a boundary: all but the trailing one. */
  function Completed<T>(s: seq<T>, f: T -> string, cut: T -> bool): seq<string> {
    var p := Pieces(s, f, cut);
    p[..|p| - 1]
  }

  lemma ConcatSingle<T, U>(x: T, f: T -> seq<U>)
    ensures Concat([x], f) == f(x)
  {
  }

  lemma ConcatSnoc<T, U>(s: seq<T>, x: T, f: T -> seq<U>)
    ensures Concat(s + [x], f) == Concat(s, f) + f(x)
  {
  }

  lemma {:induction false} ConcatAppend<T, U>(a: seq<T>, b: seq<T>, f: T -> seq<U>)
    ensures Concat(a + b, f) == Concat(a, f) + Concat(b, f)
    decreases |b|
  {
    if b == [] {
      assert a + b == a;
    } else {
      var b', x := b[..|b| - 1], b[|b| - 1];
      assert Concat(a + b, f) == Concat(a + b', f) + f(x) by {
        assert (a + b)[..|a + b| - 1] == a + b';
        assert (a + b)[|a + b| - 1] == x;
      }
      ConcatAppend(a, b', f);
    }
  }

  /** There is one segment more than there are boundaries. */
  lemma {:induction false} PiecesCount<T>(s: seq<T>, f: T -> string, cut: T -> bool)
    ensures |Pieces(s, f, cut)| == CountCuts(s, cut) + 1
  {
    if s != [] {
      PiecesCount(s[1..], f, cut);
    }
  }

  /** When every boundary adds exactly a newline, joining the segments with
      newlines gives the concatenated text. */
  lemma {:induction false} PiecesJoin<T>(s: seq<T>, f: T -> string, cut: T -> bool)
    requires forall i :: 0 <= i < |s| && cut(s[i]) ==> f(s[i]) == "\n"
    ensures JoinLines(Pieces(s, f, cut)) == Concat(s, f)
  {
    if s != [] {
      var rest := Pieces(s[1..], f, cut);
      assert Concat(s, f) == f(s[0]) + Concat(s[1..], f) by {
        assert s == [s[0]] + s[1..];
        ConcatAppend([s[0]], s[1..], f);
        ConcatSingle(s[0], f);
      }
      assert forall i :: 0 <= i < |s[1..]| ==> s[1..][i] == s[i + 1];
      PiecesJoin(s[1..], f, cut);
      if cut(s[0]) {
        assert ([""] + rest)[1..] == rest;
      } else if |rest| > 1 {
        assert ([f(s[0]) + rest[0]] + rest[1..])[1..] == rest[1..];
      }
    }
  }

  /** A boundary splits the segments: the segments of what comes before it
      followed by the segments of what comes after it. */
  lemma {:induction false} PiecesAtCut<T>(a: seq<T>, b: T, c: seq<T>, f: T -> string, cut: T -> bool)
    requires cut(b)
    ensures Pieces(a + [b] + c, f, cut) == Pieces(a, f, cut) + Pieces(c, f, cut)
  {
    if a == [] {
      assert a + [b] + c == [b] + c;
      assert ([b] + c)[1..] == c;
    } else {
      assert (a + [b] + c)[1..] == a[1..] + [b] + c;
      assert (a + [b] + c)[0] == a[0];
      PiecesAtCut(a[1..], b, c, f, cut);
    }
  }

  /** Appending an item that is not a boundary extends the trailing segment
      by what the item adds. */
  lemma {:induction false} PiecesSnoc<T>(s: seq<T>, x: T, f: T -> string, cut: T -> bool)
    requires !cut(x)
    ensures var p := Pieces(s, f, cut);
      Pieces(s + [x], f, cut) == p[..|p| - 1] + [p[|p| - 1] + f(x)]
  {
    var p := Pieces(s, f, cut);
    if s == [] {
      assert s + [x] == [x];
      assert [x][1..] == [];
      assert "" + f(x) == f(x) + "";
    } else {
      assert (s + [x])[1..] == s[1..] + [x];
      assert (s + [x])[0] == s[0];
      PiecesSnoc(s[1..], x, f, cut);
      var q := Pieces(s[1..], f, cut);
      if cut(s[0]) {
        assert p == [""] + q;
        assert p[..|p| - 1] == [""] + q[..|q| - 1];
      } else {
        var h := f(s[0]);
        assert p == [h + q[0]] + q[1..];
        if |q| == 1 {
          assert h + (q[0] + f(x)) == (h + q[0]) + f(x);
        } else {
          assert p[..|p| - 1] == [h + q[0]] + q[1..][..|q| - 2];
        }
      }
    }
  }

  /** Joining all but the last segment gives a prefix of the joined whole. */
  lemma {:induction false} JoinLinesDropLast(ss: seq<string>)
    requires |ss| >= 1
    ensures JoinLines(ss[..|ss| - 1]) <= JoinLines(ss)
  {
    if |ss| > 2 {
      JoinLinesDropLast(ss[1..]);
      assert ss[..|ss| - 1][1..] == ss[1..][..|ss| - 2];
    } else if |ss| == 2 {
      assert ss[..1] == [ss[0]];
    }
  }

  /** The accumulator step for an item that is not a boundary: the trailing
      segment grows by what the item adds. */
  lemma AccumulateStep<T>(s: seq<T>, x: T, texts: seq<string>, text: string, f: T -> string, cut: T -> bool)
    requires texts + [text] == Pieces(s, f, cut)
    requires !cut(x)
    ensures texts + [text + f(x)] == Pieces(s + [x], f, cut)
  {
    PiecesSnoc(s, x, f, cut);
    var p := texts + [text];
    assert p[..|p| - 1] == texts && p[|p| - 1] == text;
  }

  /** The accumulator step for a boundary: the trailing segment is closed and
      a new, empty one opened. */
  lemma CutStep<T>(s: seq<T>, x: T, texts: seq<string>, text: string, f: T -> string, cut: T -> bool)
    requires texts + [text] == Pieces(s, f, cut)
    requires cut(x)
    ensures (texts + [text]) + [""] == Pieces(s + [x], f, cut)
  {
    PiecesAtCut(s, x, [], f, cut);
    assert s + [x] + [] == s + [x];
  }

  /** The completed segments: one per boundary, and, when every boundary
      adds a newline, joined with newlines a prefix of the concatenated
      text. */
  lemma CompletedFacts<T>(s: seq<T>, f: T -> string, cut: T -> bool)
    requires forall i :: 0 <= i < |s| && cut(s[i]) ==> f(s[i]) == "\n"
    ensures |Completed(s, f, cut)| == CountCuts(s, cut)
    ensures JoinLines(Completed(s, f, cut)) <= Concat(s, f)
  {
    PiecesCount(s, f, cut);
    PiecesJoin(s, f, cut);
    JoinLinesDropLast(Pieces(s, f, cut));
  }
}

/** Trimming a sequence at both ends: dropping the leading and trailing
    elements that satisfy a predicate while leaving the inside untouched.
    Both Python's `str.strip()` and the extractor's `strip_list` are
    instances of it. */
module Trim {

  /** Drop leading elements while `drop` holds of them. */
  function DropFront<T>(s: seq<T>, drop: T -> bool): seq<T> {
    if s != [] && drop(s[0]) then DropFront(s[1..], drop) else s
  }

  /** Drop trailing elements while `drop` holds of them. */
  function DropBack<T>(s: seq<T>, drop: T -> bool): seq<T> {
    if s != [] && drop(s[|s| - 1]) then DropBack(s[..|s| - 1], drop) else s
  }

  /** `DropFront` keeps a suffix, everything it dropped is droppable, and
      what it keeps does not start with a droppable element. */
  lemma {:induction false} DropFrontSpec<T>(s: seq<T>, drop: T -> bool)
    ensures var r := DropFront(s, drop);
      && |r| <= |s| && r == s[|s| - |r|..]
      && (forall k :: 0 <= k < |s| - |r| ==> drop(s[k]))
      && (r == [] || !drop(r[0]))
  {
    if s != [] && drop(s[0]) {
      var t := s[1..];
      DropFrontSpec(t, drop);
      var r := DropFront(t, drop);
      assert r == s[|s| - |r|..] by {
        assert t[|t| - |r|..] == s[|s| - |r|..];
      }
      forall k | 0 < k < |s| - |r|
        ensures drop(s[k])
      {
        assert s[k] == t[k - 1];
      }
    }
  }

  /** `DropBack` keeps a prefix, everything it dropped is droppable, and
      what it keeps does not end with a droppable element. */
  lemma {:induction false} DropBackSpec<T>(s: seq<T>, drop: T -> bool)
    ensures var r := DropBack(s, drop);
      && |r| <= |s| && r == s[..|r|]
      && (forall k :: |r| <= k < |s| ==> drop(s[k]))
      && (r == [] || !drop(r[|r| - 1]))
  {
    if s != [] && drop(s[|s| - 1]) {
      var t := s[..|s| - 1];
      DropBackSpec(t, drop);
      var r := DropBack(t, drop);
      assert r == s[..|r|] by {
        assert t[..|r|] == s[..|r|];
      }
      forall k | |r| <= k < |s| - 1
        ensures drop(s[k])
      {
        assert s[k] == t[k];
      }
    }
  }

  /** `r` is the slice of `s` starting at `i`, every element of `s` around it
      satisfies `drop`, and its own first and last elements do not. */
  ghost predicate TrimAt<T>(r: seq<T>, s: seq<T>, i: int, drop: T -> bool) {
    && 0 <= i <= |s| - |r|
    && r == s[i..i + |r|]
    && (forall k :: 0 <= k < i ==> drop(s[k]))
    && (forall k :: i + |r| <= k < |s| ==> drop(s[k]))
    && (r == [] || (!drop(r[0]) && !drop(r[|r| - 1])))
  }

  /** `r` is a trim of `s`: a contiguous slice whose surroundings are all
      droppable and whose ends are not. */
  ghost predicate IsTrimOf<T>(r: seq<T>, s: seq<T>, drop: T -> bool) {
    exists i :: TrimAt(r, s, i, drop)
  }

  /** Every element satisfies `drop`. */
  predicate AllDroppable<T>(s: seq<T>, drop: T -> bool) {
    forall k :: 0 <= k < |s| ==> drop(s[k])
  }

  /** Trimming from the back and then from the front yields the trim. */
  lemma BackThenFrontIsTrim<T>(s: seq<T>, drop: T -> bool)
    ensures IsTrimOf(DropFront(DropBack(s, drop), drop), s, drop)
  {
    var b := DropBack(s, drop);
    var r := DropFront(b, drop);
    DropBackSpec(s, drop);
    DropFrontSpec(b, drop);
    var i := |b| - |r|;
    assert r == s[i..i + |r|];
    assert TrimAt(r, s, i, drop);
  }

  /** Trimming from the front and then from the back yields the trim. */
  lemma FrontThenBackIsTrim<T>(s: seq<T>, drop: T -> bool)
    ensures IsTrimOf(DropBack(DropFront(s, drop), drop), s, drop)
  {
    var f := DropFront(s, drop);
    var r := DropBack(f, drop);
    DropFrontSpec(s, drop);
    DropBackSpec(f, drop);
    var i := |s| - |f|;
    assert r == s[i..i + |r|];
    assert forall k :: i <= k < i + |r| ==> s[k] == r[k - i];
    assert TrimAt(r, s, i, drop);
  }

  /** There is only one trim of a sequence. */
  lemma TrimUnique<T>(r1: seq<T>, r2: seq<T>, s: seq<T>, drop: T -> bool)
    requires IsTrimOf(r1, s, drop) && IsTrimOf(r2, s, drop)
    ensures r1 == r2
  {
  }

  /** Hence the two orders of trimming agree. */
  lemma TrimOrderIrrelevant<T>(s: seq<T>, drop: T -> bool)
    ensures DropFront(DropBack(s, drop), drop) == DropBack(DropFront(s, drop), drop)
  {
    BackThenFrontIsTrim(s, drop);
    FrontThenBackIsTrim(s, drop);
    TrimUnique(DropFront(DropBack(s, drop), drop), DropBack(DropFront(s, drop), drop), s, drop);
  }

  /** A trim has nothing left to trim. */
  lemma TrimIdempotent<T>(s: seq<T>, drop: T -> bool)
    ensures var r := DropFront(DropBack(s, drop), drop);
      DropFront(DropBack(r, drop), drop) == r
  {
    var r := DropFront(DropBack(s, drop), drop);
    BackThenFrontIsTrim(s, drop);
  }

  /** A sequence made only of droppable elements trims to nothing, and only
      such a sequence does. */
  lemma TrimEmptyIff<T>(s: seq<T>, drop: T -> bool)
    ensures DropFront(DropBack(s, drop), drop) == [] <==> AllDroppable(s, drop)
  {
    var b := DropBack(s, drop);
    DropBackSpec(s, drop);
    DropFrontSpec(b, drop);
    if !AllDroppable(s, drop) {
      var k :| 0 <= k < |s| && !drop(s[k]);
      assert b != [];
    }
  }
}

/** Image selection: which archive entries are copied out as images, and
    under which file name. An entry is an image when its extension, as
    `os.path.splitext` computes it, is one of four fixed strings compared
    case-sensitively; it is written under its base name, so of two entries
    with the same base name the later one in listing order is what remains. */
module Images {

  /** `s.rfind(c)`: the position of the last `c` in `s`, or -1. */
  function LastIndex(s: string, c: char): (r: int)
    ensures -1 <= r < |s|
    ensures r >= 0 ==> s[r] == c
  {
    if s == [] then -1
    else if s[|s| - 1] == c then |s| - 1
    else LastIndex(s[..|s| - 1], c)
  }

  /** Nothing after the position `LastIndex` returns is a `c`. */
  lemma {:induction false} LastIndexIsLast(s: string, c: char)
    ensures forall k :: LastIndex(s, c) < k < |s| ==> s[k] != c
  {
    if s != [] && s[|s| - 1] != c {
      LastIndexIsLast(s[..|s| - 1], c);
    }
  }

  /** `os.path.basename` for `/`-separated names: what follows the last
      slash. */
  function Basename(p: string): (r: string)
    ensures forall k :: 0 <= k < |r| ==> r[k] != '/'
    ensures |r| <= |p| && r == p[|p| - |r|..]
  {
    LastIndexIsLast(p, '/');
    p[LastIndex(p, '/') + 1..]
  }

  /** Every position of `s` from `lo` up to `hi` holds a dot. */
  predicate DotsBetween(s: string, lo: int, hi: int) {
    forall k :: lo <= k < hi && 0 <= k < |s| ==> s[k] == '.'
  }

  /** Empty, or made of dots only. */
  predicate AllDots(s: string) {
    DotsBetween(s, 0, |s|)
  }

  /** `os.path.splitext(p)[1]`: from the last dot on, provided that dot comes
      after the last slash and something other than dots precedes it within
      the base name (so `.png` alone is a hidden file without extension);
      otherwise empty. */
  function Extension(p: string): (r: string)
    ensures r == "" || r[0] == '.'
    ensures forall k :: 1 <= k < |r| ==> r[k] != '.'
    ensures forall k :: 0 <= k < |r| ==> r[k] != '/'
    ensures |r| <= |p| && r == p[|p| - |r|..]
  {
    var sep := LastIndex(p, '/');
    var dot := LastIndex(p, '.');
    if dot > sep && !DotsBetween(p, sep + 1, dot) then
      LastIndexIsLast(p, '/');
      LastIndexIsLast(p, '.');
      p[dot..]
    else ""
  }

  const ImageExtensions: seq<string> := [".jpg", ".jpeg", ".png", ".bmp"]

  predicate IsImageEntry(p: string) {
    Extension(p) in ImageExtensions
  }

  /** The last `c` of `s + t` is the last `c` of `s` when `t` has none. */
  lemma {:induction false} LastIndexAppend(s: string, t: string, c: char)
    requires c !in t
    ensures LastIndex(s + t, c) == LastIndex(s, c)
    decreases |t|
  {
    if t == [] {
      assert s + t == s;
    } else {
      var t' := t[..|t| - 1];
      assert (s + t)[..|s + t| - 1] == s + t';
      assert (s + t)[|s + t| - 1] == t[|t| - 1];
      LastIndexAppend(s, t', c);
    }
  }

  /** The last dot of `q.x` is the one before `x` when `x` has no dot. */
  lemma LastDotOfAppended(q: string, x: string)
    requires '.' !in x
    ensures LastIndex(q + "." + x, '.') == |q|
  {
    assert q + "." + x == (q + ".") + x;
    LastIndexAppend(q + ".", x, '.');
  }

  /** The last slash of `q.x` is the last slash of `q` when `x` has none. */
  lemma LastSlashOfAppended(q: string, x: string)
    requires '/' !in x
    ensures LastIndex(q + "." + x, '/') == LastIndex(q, '/')
  {
    assert '/' !in "." + x;
    assert q + "." + x == q + ("." + x);
    LastIndexAppend(q, "." + x, '/');
  }

  /** Whether a suffix of `q` is dots only can be read off any extension
      of `q`, between the start of that suffix and the end of `q`. */
  lemma AllDotsOfSuffix(q: string, t: string, lo: nat)
    requires lo <= |q|
    ensures DotsBetween(q + t, lo, |q|) <==> AllDots(q[lo..])
  {
    var p, b := q + t, q[lo..];
    if DotsBetween(p, lo, |q|) {
      forall k | 0 <= k < |b|
        ensures b[k] == '.'
      {
        assert b[k] == q[lo + k] == p[lo + k];
      }
    }
    if AllDots(b) {
      forall k | lo <= k < |q|
        ensures p[k] == '.'
      {
        assert p[k] == q[k] == b[k - lo];
      }
    }
  }

  /** Appending `.x` (no dot or slash in `x`) to a name whose base name has
      something other than dots gives a name with extension `.x`; when the
      base name is empty or only dots, the result has no extension. */
  lemma ExtensionOfAppended(q: string, x: string)
    requires '.' !in x && '/' !in x
    ensures !AllDots(Basename(q)) ==> Extension(q + "." + x) == "." + x
    ensures AllDots(Basename(q)) ==> Extension(q + "." + x) == ""
  {
    LastDotOfAppended(q, x);
    LastSlashOfAppended(q, x);
    assert q + "." + x == q + ("." + x);
    AllDotsOfSuffix(q, "." + x, LastIndex(q, '/') + 1);
    assert (q + "." + x)[|q|..] == "." + x;
  }

  /** A non-empty extension is preceded, within the base name, by something
      other than dots. */
  lemma ExtensionStem(p: string)
    requires Extension(p) != ""
    ensures !AllDots(Basename(p[..|p| - |Extension(p)|]))
  {
    var e := Extension(p);
    var q := p[..|p| - |e|];
    var x := e[1..];
    assert '.' !in x && '/' !in x by {
      forall k | 0 <= k < |x|
        ensures x[k] != '.' && x[k] != '/'
      {
        assert x[k] == e[k + 1];
      }
    }
    assert p == q + "." + x;
    ExtensionOfAppended(q, x);
  }

  /** Each image extension is a dot followed by dot-free, slash-free text. */
  lemma ImageExtensionShape(e: string)
    requires e in ImageExtensions
    ensures |e| >= 1 && e[0] == '.' && '.' !in e[1..] && '/' !in e
  {
  }

  /** The name shape of an image entry: ends in extension `e`, and what
      precedes `e` in the base name is not empty and not dots only. */
  predicate ImageShaped(p: string, e: string) {
    |e| <= |p| && p[|p| - |e|..] == e && !AllDots(Basename(p[..|p| - |e|]))
  }

  lemma ImageShapedOfImage(p: string)
    requires IsImageEntry(p)
    ensures ImageShaped(p, Extension(p))
  {
    ExtensionStem(p);
  }

  lemma ImageOfImageShaped(p: string, e: string)
    requires e in ImageExtensions && ImageShaped(p, e)
    ensures IsImageEntry(p)
  {
    var q := p[..|p| - |e|];
    ImageExtensionShape(e);
    assert p == q + "." + e[1..] by {
      assert p == q + e;
      assert e == "." + e[1..];
    }
    ExtensionOfAppended(q, e[1..]);
  }

  /** An entry is an image exactly when its name ends in one of the four
      extensions and what precedes the extension in its base name is not
      empty and not made only of dots. */
  lemma ImageEntryIff(p: string)
    ensures IsImageEntry(p) <==> exists e :: e in ImageExtensions && ImageShaped(p, e)
  {
    if IsImageEntry(p) {
      ImageShapedOfImage(p);
    }
    if exists e :: e in ImageExtensions && ImageShaped(p, e) {
      var e :| e in ImageExtensions && ImageShaped(p, e);
      ImageOfImageShaped(p, e);
    }
  }

  /** The writes the extraction loop performs, in listing order: for each
      image entry, its base name as the destination and the entry itself as
      the source of the bytes. */
  function ImageWrites(names: seq<string>): (w: seq<(string, string)>)
    ensures |w| <= |names|
    ensures forall k :: 0 <= k < |w| ==> IsImageEntry(w[k].1) && w[k].0 == Basename(w[k].1) && w[k].1 in names
  {
    if names == [] then []
    else
      var last := names[|names| - 1];
      ImageWrites(names[..|names| - 1]) + if IsImageEntry(last) then [(Basename(last), last)] else []
  }

  /** The output directory after a run of writes: each destination holds
      what was last written to it. */
  function FinalFiles(writes: seq<(string, string)>): (m: map<string, string>)
    ensures forall d :: d in m ==> exists k :: 0 <= k < |writes| && writes[k] == (d, m[d])
  {
    if writes == [] then map[]
    else
      var last := writes[|writes| - 1];
      var m := FinalFiles(writes[..|writes| - 1])[last.0 := last.1];
      assert writes[|writes| - 1] == (last.0, m[last.0]);
      m
  }

  /** Writing entries in listing order loses no entry: every image entry is
      written, and nothing else is. */
  lemma {:induction false} ImageWritesComplete(names: seq<string>, i: nat)
    requires i < |names|
    ensures IsImageEntry(names[i]) <==> (Basename(names[i]), names[i]) in ImageWrites(names)
  {
    var init := names[..|names| - 1];
    var tail := if IsImageEntry(names[|names| - 1]) then [(Basename(names[|names| - 1]), names[|names| - 1])] else [];
    assert ImageWrites(names) == ImageWrites(init) + tail;
    if i < |names| - 1 {
      ImageWritesComplete(init, i);
    }
  }

  /** Every destination written to is in the final directory. */
  lemma {:induction false} FinalFilesComplete(writes: seq<(string, string)>, i: nat)
    requires i < |writes|
    ensures writes[i].0 in FinalFiles(writes)
  {
    if i < |writes| - 1 {
      FinalFilesComplete(writes[..|writes| - 1], i);
    }
  }

  /** A write with no later write to the same destination is what that
      destination holds: later writes overwrite earlier ones. */
  lemma {:induction false} FinalFilesLastWins(writes: seq<(string, string)>, i: nat)
    requires i < |writes|
    requires forall j :: i < j < |writes| ==> writes[j].0 != writes[i].0
    ensures writes[i].0 in FinalFiles(writes)
    ensures FinalFiles(writes)[writes[i].0] == writes[i].1
  {
    var init := writes[..|writes| - 1];
    if i < |writes| - 1 {
      assert forall j :: i < j < |init| ==> init[j] == writes[j];
      FinalFilesLastWins(init, i);
    }
  }

  lemma FinalFilesSnoc(writes: seq<(string, string)>, x: (string, string))
    ensures FinalFiles(writes + [x]) == FinalFiles(writes)[x.0 := x.1]
  {
    assert (writes + [x])[..|writes|] == writes;
  }

  /** A write to another destination leaves what `b` holds unchanged. */
  lemma FinalFilesKeep(writes: seq<(string, string)>, x: (string, string), b: string)
    requires b in FinalFiles(writes) && x.0 != b
    ensures b in FinalFiles(writes + [x])
    ensures FinalFiles(writes + [x])[b] == FinalFiles(writes)[b]
  {
    FinalFilesSnoc(writes, x);
  }

  /** The last entry, when it is an image, is what its base name holds. */
  lemma LastEntryWritten(names: seq<string>)
    requires |names| >= 1 && IsImageEntry(names[|names| - 1])
    ensures var last := names[|names| - 1];
      && Basename(last) in FinalFiles(ImageWrites(names))
      && FinalFiles(ImageWrites(names))[Basename(last)] == last
  {
    var last := names[|names| - 1];
    FinalFilesSnoc(ImageWrites(names[..|names| - 1]), (Basename(last), last));
  }

  /** A last entry that is an image adds one write, to its base name. */
  lemma ImageEntryWrites(names: seq<string>)
    requires |names| >= 1 && IsImageEntry(names[|names| - 1])
    ensures var last := names[|names| - 1];
      ImageWrites(names) == ImageWrites(names[..|names| - 1]) + [(Basename(last), last)]
  {
  }

  /** A last entry that is not an image writes nothing. */
  lemma NonImageWritesNothing(names: seq<string>)
    requires |names| >= 1 && !IsImageEntry(names[|names| - 1])
    ensures ImageWrites(names) == ImageWrites(names[..|names| - 1])
  {
    var last := names[|names| - 1];
    var w := ImageWrites(names[..|names| - 1]);
    assert ImageWrites(names) == w + (if IsImageEntry(last) then [(Basename(last), last)] else []);
    assert w + [] == w;
  }

  /** The collision rule in listing order: an image entry with no later
      image entry of the same base name is what the output directory holds
      under that base name. */
  lemma {:induction false} LaterEntryWins(names: seq<string>, i: nat)
    requires i < |names| && IsImageEntry(names[i])
    requires forall j :: i < j < |names| && IsImageEntry(names[j]) ==> Basename(names[j]) != Basename(names[i])
    ensures Basename(names[i]) in FinalFiles(ImageWrites(names))
    ensures FinalFiles(ImageWrites(names))[Basename(names[i])] == names[i]
  {
    if i == |names| - 1 {
      LastEntryWritten(names);
    } else {
      var init := names[..|names| - 1];
      forall j | i < j < |init| && IsImageEntry(init[j])
        ensures Basename(init[j]) != Basename(init[i])
      {
        assert init[j] == names[j];
      }
      LaterEntryWins(init, i);
      var last := names[|names| - 1];
      if IsImageEntry(last) {
        ImageEntryWrites(names);
        FinalFilesKeep(ImageWrites(init), (Basename(last), last), Basename(names[i]));
      } else {
        NonImageWritesNothing(names);
      }
    }
  }

  /** The base name of `dir/rest` is `rest`. */
  lemma BasenameInDirectory(dir: string, rest: string)
    requires '/' !in rest
    requires dir == "" || dir[|dir| - 1] == '/'
    ensures Basename(dir + rest) == rest
  {
    assert Basename(dir) == "";
    LastIndexAppend(dir, rest, '/');
  }

  /** An entry `dir/stem.ext` with an image extension and a stem that is
      not dots only is an image; by `BasenameInDirectory` it is written under
      `stem.ext` (`word/media/image1.png` becomes `image1.png`). */
  lemma ImageInDirectory(dir: string, stem: string, e: string)
    requires e in ImageExtensions
    requires '/' !in stem && !AllDots(stem)
    requires dir == "" || dir[|dir| - 1] == '/'
    ensures IsImageEntry(dir + stem + e)
  {
    var p := dir + stem + e;
    assert p[|p| - |e|..] == e;
    assert p[..|p| - |e|] == dir + stem;
    BasenameInDirectory(dir, stem);
    ImageOfImageShaped(p, e);
  }

  /** A hidden file named `.png` has no extension. */
  lemma HiddenFileExample()
    ensures !IsImageEntry("word/media/.png")
  {
    assert Basename("word/media/") == "";
    ExtensionOfAppended("word/media/", "png");
    assert "word/media/" + "." + "png" == "word/media/.png";
  }
}

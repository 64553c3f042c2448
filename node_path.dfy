/**
 * The two POSIX `path` helpers the tool calls: `basename` (for the
 * "File:" line of info mode) and `extname` (to choose the image format).
 * Both look only at the last segment of the path once trailing slashes
 * are removed.
 */
module NodePath {

  /** The path with every trailing '/' removed. */
  function StripTrailingSlashes(p: string): (q: string)
    ensures |q| <= |p| && q == p[..|q|]
    ensures q == [] || q[|q| - 1] != '/'
    ensures forall i :: |q| <= i < |p| ==> p[i] == '/'
  {
    if p == [] || p[|p| - 1] != '/' then p else StripTrailingSlashes(p[..|p| - 1])
  }

  /** The part of `s` after its last `c`; all of `s` when `c` does not occur. */
  function AfterLast(s: string, c: char): (t: string)
    ensures |t| <= |s|
    ensures c !in t
  {
    if s == [] || s[|s| - 1] == c then [] else AfterLast(s[..|s| - 1], c) + [s[|s| - 1]]
  }

  /** `AfterLast(s, c)` is the end of `s`. */
  lemma {:induction false} AfterLastIsSuffix(s: string, c: char)
    ensures forall i :: 0 <= i < |AfterLast(s, c)| ==> AfterLast(s, c)[i] == s[|s| - |AfterLast(s, c)| + i]
  {
    if s != [] && s[|s| - 1] != c {
      AfterLastIsSuffix(s[..|s| - 1], c);
    }
  }

  lemma {:induction false} AfterLastAppend(x: string, y: string, c: char)
    requires c !in y
    ensures AfterLast(x + y, c) == AfterLast(x, c) + y
    decreases |y|
  {
    if y != [] {
      var y' := y[..|y| - 1];
      assert (x + y)[..|x + y| - 1] == x + y';
      AfterLastAppend(x, y', c);
      assert y' + [y[|y| - 1]] == y;
    } else {
      assert x + y == x;
    }
  }

  /** `path.basename(p)`. */
  function Basename(p: string): (b: string)
    ensures '/' !in b
  {
    AfterLast(StripTrailingSlashes(p), '/')
  }

  /**
   * `path.extname(p)`: from the last '.' of the base name to its end, or ""
   * when the base name has no '.', starts with its only counted '.', or is "..".
   */
  function ExtName(p: string): (ext: string)
    ensures ext != [] ==> ext[0] == '.'
    ensures forall i :: 0 < i < |ext| ==> ext[i] != '.' && ext[i] != '/'
  {
    var base := Basename(p);
    var afterDot := AfterLast(base, '.');
    if |afterDot| == |base| || |afterDot| + 1 == |base| || base == ".." then ""
    else
      AfterLastIsSuffix(base, '.');
      "." + afterDot
  }

  /** Everything after the last separator `c`. */
  lemma AfterLastSeparator(x: string, c: char, y: string)
    requires c !in y
    ensures AfterLast(x + [c] + y, c) == y
  {
    var xc := x + [c];
    assert xc[|xc| - 1] == c;
    assert AfterLast(xc, c) == [];
    assert x + [c] + y == xc + y;
    AfterLastAppend(xc, y, c);
  }

  /** The base name of a path ending in a segment tail without '/'. */
  lemma BasenameAppend(x: string, y: string)
    requires y != [] && '/' !in y
    ensures Basename(x + y) == AfterLast(x, '/') + y
  {
    assert (x + y)[|x + y| - 1] == y[|y| - 1];
    AfterLastAppend(x, y, '/');
  }

  /**
   * The extension of a path whose last segment is `stem` + "." + `ext`:
   * it is "." + `ext` unless the stem of that segment is empty (a dot file).
   */
  lemma ExtNameOfDottedPath(x: string, ext: string)
    requires ext != [] && '.' !in ext && '/' !in ext
    ensures ExtName(x + "." + ext) == if AfterLast(x, '/') == [] then "" else "." + ext
  {
    var tail := "." + ext;
    assert x + "." + ext == x + tail;
    BasenameAppend(x, tail);
    var stem := AfterLast(x, '/');
    var base := stem + tail;
    assert base == stem + ['.'] + ext;
    AfterLastSeparator(stem, '.', ext);
    var p := x + tail;
    assert Basename(p) == base;
    assert AfterLast(base, '.') == ext;
    if stem == [] {
      assert |ext| + 1 == |base|;
    } else {
      assert |base| == |stem| + 1 + |ext| >= 3;
      assert base != "..";
      assert ExtName(p) == "." + ext;
    }
  }
}

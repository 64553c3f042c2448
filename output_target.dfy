/**
 * Where a captured page is written and how it is encoded (capture.ts lines
 * 77-93): the output pattern, with "-<page>" inserted by the regular
 * expression /(\.[^.]+)$/ when more than one page was requested, and the
 * image format chosen from the lower-cased extension of that path.
 */
module OutputTarget {
  import opened Wrappers
  import opened Decimal
  import NodePath

  /**
   * /(\.[^.]+)$/ matches `s` from position `i`: a '.', then at least one
   * character other than '.', up to the end of the string.
   */
  predicate ExtensionMatchAt(s: string, i: nat) {
    i + 1 < |s| && s[i] == '.' && forall k :: i < k < |s| ==> s[k] != '.'
  }

  /** The leftmost position at or after `from` where the expression matches. */
  function FindExtensionMatch(s: string, from: nat): (r: Option<nat>)
    ensures r.Some? ==> from <= r.value && ExtensionMatchAt(s, r.value)
    ensures r.None? ==> forall i :: from <= i < |s| ==> !ExtensionMatchAt(s, i)
    decreases |s| - from
  {
    if from >= |s| then None
    else if ExtensionMatchAt(s, from) then Some(from)
    else FindExtensionMatch(s, from + 1)
  }

  /**
   * `s.replace(/(\.[^.]+)$/, tag + "$1")`: `tag` inserted before the
   * matched text, or `s` unchanged when nothing matches.
   */
  function InsertBeforeExtension(s: string, tag: string): string {
    match FindExtensionMatch(s, 0)
    case None => s
    case Some(i) => s[..i] + tag + s[i..]
  }

  /** Lines 78-80: the path of page `pageNum` when `requested` numbers were given. */
  function OutputPathFor(pattern: string, pageNum: nat, requested: nat): string {
    if requested > 1 then InsertBeforeExtension(pattern, "-" + DecimalString(pageNum)) else pattern
  }

  /** The pattern has a final "." followed by at least one non-dot character. */
  predicate HasExtension(s: string) {
    exists i :: 0 <= i < |s| && ExtensionMatchAt(s, i)
  }

  /** The expression can match at one position only: the last '.'. */
  lemma ExtensionMatchUnique(s: string, i: nat, j: nat)
    requires ExtensionMatchAt(s, i) && ExtensionMatchAt(s, j)
    ensures i == j
  {
  }

  /**
   * Nothing matches exactly when the pattern has no '.' or ends with '.';
   * `a.b/c` does match, since '/' is not a '.'.
   */
  lemma HasExtensionIff(s: string)
    ensures HasExtension(s) <==> '.' in s && s[|s| - 1] != '.'
  {
    if '.' in s && s[|s| - 1] != '.' {
      var i := LastDot(s);
      assert ExtensionMatchAt(s, i);
    }
  }

  /** The position of the last '.' of `s`. */
  function LastDot(s: string): (i: nat)
    requires '.' in s
    ensures i < |s| && s[i] == '.' && forall k :: i < k < |s| ==> s[k] != '.'
  {
    if s[|s| - 1] == '.' then |s| - 1
    else
      assert '.' in s[..|s| - 1] by {
        var k :| 0 <= k < |s| && s[k] == '.';
        assert s[..|s| - 1][k] == '.';
      }
      LastDot(s[..|s| - 1])
  }

  /**
   * With several pages requested, a pattern `stem` + "." + `ext` (no '.' in
   * `ext`) becomes `stem` + "-N." + `ext`.
   */
  lemma {:induction false} TemplateInsertsPageNumber(stem: string, ext: string, pageNum: nat, requested: nat)
    requires requested > 1
    requires ext != [] && '.' !in ext
    ensures OutputPathFor(stem + "." + ext, pageNum, requested) == stem + "-" + DecimalString(pageNum) + "." + ext
  {
    var s := stem + "." + ext;
    var i := |stem|;
    assert ExtensionMatchAt(s, i) by {
      forall k | i < k < |s| ensures s[k] != '.' {
        assert s[k] == ext[k - i - 1];
      }
    }
    match FindExtensionMatch(s, 0)
    case None =>
      assert false;
    case Some(j) =>
      ExtensionMatchUnique(s, i, j);
      assert s[..i] == stem && s[i..] == "." + ext;
  }

  /** "out.png" becomes "out-3.png" among several pages and stays "out.png" alone; "out" never changes. */
  lemma TemplateExamples()
    ensures OutputPathFor("out.png", 3, 2) == "out-3.png"
    ensures OutputPathFor("out.png", 5, 1) == "out.png"
    ensures OutputPathFor("out", 1, 2) == "out" && OutputPathFor("out", 2, 2) == "out"
  {
    TemplateInsertsPageNumber("out", "png", 3, 2);
    assert "out" + "." + "png" == "out.png";
    assert DecimalString(3) == "3";
    TemplateKeepsPatternWithoutExtension("out", 1, 2);
    TemplateKeepsPatternWithoutExtension("out", 2, 2);
  }

  /** '/' is not a '.', so the page number can land before a directory part. */
  lemma TemplateIgnoresDirectories()
    ensures OutputPathFor("a.b/c", 2, 2) == "a-2.b/c"
  {
    TemplateInsertsPageNumber("a", "b/c", 2, 2);
    assert "a" + "." + "b/c" == "a.b/c";
    assert DecimalString(2) == "2";
  }

  /**
   * A pattern with no '.', or ending in '.', is used unchanged for every
   * page, whatever the number of pages requested.
   */
  lemma TemplateKeepsPatternWithoutExtension(pattern: string, pageNum: nat, requested: nat)
    requires '.' !in pattern || pattern[|pattern| - 1] == '.'
    ensures OutputPathFor(pattern, pageNum, requested) == pattern
  {
    HasExtensionIff(pattern);
    if FindExtensionMatch(pattern, 0).Some? {
      assert HasExtension(pattern);
    }
  }

  /** With exactly one page requested the pattern is the path. */
  lemma SinglePageUsesPattern(pattern: string, pageNum: nat)
    ensures OutputPathFor(pattern, pageNum, 1) == pattern
  {
  }

  /**
   * With several pages requested, two distinct pages get the same path
   * exactly when the pattern has no extension to insert before; the
   * collision is not reported.
   */
  lemma {:induction false} PathsCollideIff(pattern: string, m: nat, n: nat, requested: nat)
    requires requested > 1 && m != n
    ensures OutputPathFor(pattern, m, requested) == OutputPathFor(pattern, n, requested) <==> !HasExtension(pattern)
  {
    match FindExtensionMatch(pattern, 0)
    case None =>
    case Some(i) =>
      var dm, dn := DecimalString(m), DecimalString(n);
      var pm := pattern[..i] + ("-" + dm) + pattern[i..];
      var pn := pattern[..i] + ("-" + dn) + pattern[i..];
      if pm == pn {
        assert |dm| == |dn|;
        assert dm == pm[i + 1..i + 1 + |dm|];
        assert dn == pn[i + 1..i + 1 + |dn|];
        DecimalInjective(m, n);
      }
  }
  /** `PathsCollideIff` for every pair of page numbers at once. */
  lemma AllPathsCollideIff(pattern: string, requested: nat)
    requires requested > 1
    ensures forall m: nat, n: nat :: m != n ==>
      (OutputPathFor(pattern, m, requested) == OutputPathFor(pattern, n, requested) <==> !HasExtension(pattern))
  {
    forall m: nat, n: nat | m != n
      ensures OutputPathFor(pattern, m, requested) == OutputPathFor(pattern, n, requested) <==> !HasExtension(pattern)
    {
      PathsCollideIff(pattern, m, n, requested);
    }
  }


  /** The encodings the tool produces. */
  datatype Format = Png | Jpeg(quality: real)

  /** The JPEG quality passed to the encoder on line 89. */
  const JpegQuality: real := 0.9

  /** `toLowerCase` on the ASCII letters. */
  function LowerChar(c: char): char {
    if 'A' <= c <= 'Z' then (c as int + 32) as char else c
  }

  function Lower(s: string): (r: string)
    ensures |r| == |s| && forall i :: 0 <= i < |s| ==> r[i] == LowerChar(s[i])
    ensures forall i :: 0 <= i < |r| ==> !('A' <= r[i] <= 'Z')
  {
    seq(|s|, i requires 0 <= i < |s| => LowerChar(s[i]))
  }

  /** Lower-casing twice is lower-casing once. */
  lemma LowerIdempotent(s: string)
    ensures Lower(Lower(s)) == Lower(s)
  {
    var r := Lower(s);
    assert forall i :: 0 <= i < |r| ==> Lower(r)[i] == r[i];
  }

  /** `a` and `b` differ at most in the case of their letters. */
  predicate SameIgnoringCase(a: string, b: string) {
    |a| == |b| && forall i :: 0 <= i < |a| ==> LowerChar(a[i]) == LowerChar(b[i])
  }

  /** Lines 86-93: the format for an extension, PNG unless it is a JPEG one. */
  function FormatForExtension(ext: string): (f: Format)
    ensures f == Png || f == Jpeg(JpegQuality)
  {
    var e := Lower(ext);
    if e == ".png" then Png
    else if e == ".jpg" || e == ".jpeg" then Jpeg(JpegQuality)
    else Png
  }

  /** Lines 83-93: the format for the path a page is written to. */
  function FormatFor(outputPath: string): Format {
    FormatForExtension(NodePath.ExtName(outputPath))
  }

  /**
   * The choice is total and two-valued: JPEG at quality 0.9 exactly for
   * ".jpg" and ".jpeg" in any mix of cases, PNG for every other extension,
   * the empty one included.
   */
  lemma FormatChoice(ext: string)
    ensures FormatForExtension(ext) == Jpeg(JpegQuality) <==> SameIgnoringCase(ext, ".jpg") || SameIgnoringCase(ext, ".jpeg")
    ensures FormatForExtension(ext) != Jpeg(JpegQuality) ==> FormatForExtension(ext) == Png
  {
    var e := Lower(ext);
    assert Lower(".jpg") == ".jpg";
    assert Lower(".jpeg") == ".jpeg";
    assert SameIgnoringCase(ext, ".jpg") <==> e == ".jpg";
    assert SameIgnoringCase(ext, ".jpeg") <==> e == ".jpeg";
  }

  /** Only the letters' case-insensitive spelling of the extension matters. */
  lemma FormatIgnoresCase(a: string, b: string)
    requires SameIgnoringCase(a, b)
    ensures FormatForExtension(a) == FormatForExtension(b)
  {
    assert Lower(a) == Lower(b);
  }

  /** ".JPG" is a JPEG extension; ".gif" and "" fall back to PNG. */
  lemma FormatExamples()
    ensures FormatForExtension(".JPG") == Jpeg(JpegQuality)
    ensures FormatForExtension(".gif") == Png
    ensures FormatForExtension("") == Png
  {
    FormatChoice(".JPG");
    assert SameIgnoringCase(".JPG", ".jpg");
    FormatChoice(".gif");
    assert !SameIgnoringCase(".gif", ".jpg") by { assert LowerChar(".gif"[1]) != LowerChar(".jpg"[1]); }
  }

  /**
   * Inserting the page number does not change the extension the format is
   * chosen from, as long as the last segment is `stem` + "." + `ext` with
   * a non-empty stem.
   */
  lemma TemplateKeepsFormat(dir: string, stem: string, ext: string, pageNum: nat, requested: nat)
    requires stem != [] && '/' !in stem
    requires ext != [] && '.' !in ext && '/' !in ext
    ensures FormatFor(OutputPathFor(dir + stem + "." + ext, pageNum, requested)) == FormatFor(dir + stem + "." + ext)
  {
    var x := dir + stem;
    assert x + "." + ext == dir + stem + "." + ext;
    NodePath.AfterLastAppend(dir, stem, '/');
    NodePath.ExtNameOfDottedPath(x, ext);
    if requested > 1 {
      TemplateInsertsPageNumber(x, ext, pageNum, requested);
      var y := x + "-" + DecimalString(pageNum);
      NodePath.AfterLastAppend(x, "-" + DecimalString(pageNum), '/');
      NodePath.ExtNameOfDottedPath(y, ext);
    }
  }

  /**
   * The extension is read from the templated path, so a dot-file pattern
   * such as ".jpg" has no extension and is encoded as PNG for one page ...
   */
  lemma DotFileSinglePage(ext: string, pageNum: nat)
    requires ext != [] && '.' !in ext && '/' !in ext
    ensures FormatFor(OutputPathFor("." + ext, pageNum, 1)) == Png
  {
    assert "" + "." + ext == "." + ext;
    NodePath.ExtNameOfDottedPath("", ext);
    assert Lower("") == "";
  }

  /** ... but in its extension's format for several ("-1.jpg" has extension ".jpg"). */
  lemma DotFileSeveralPages(ext: string, pageNum: nat, requested: nat)
    requires ext != [] && '.' !in ext && '/' !in ext
    requires requested > 1
    ensures FormatFor(OutputPathFor("." + ext, pageNum, requested)) == FormatForExtension("." + ext)
  {
    var y := "-" + DecimalString(pageNum);
    TemplateInsertsPageNumber("", ext, pageNum, requested);
    assert "" + "." + ext == "." + ext;
    assert "" + "-" + DecimalString(pageNum) + "." + ext == y + "." + ext;
    NodePath.AfterLastAppend("", y, '/');
    assert "" + y == y;
    NodePath.ExtNameOfDottedPath(y, ext);
  }
}

/**
 * `capturePages` (capture.ts lines 50-102): every requested number, in the
 * order given, is either reported as missing or rendered, encoded and
 * written to its own output path.
 */
module Capture {
  import opened Wrappers
  import opened Decimal
  import opened OutputTarget
  import opened Trace

  predicate InRange(pageNum: int, pageCount: nat) {
    1 <= pageNum <= pageCount
  }

  /** Lines 59-98 for one requested number, `requested` being the length of the whole list. */
  function PageEvents(pageCount: nat, pageNum: int, requested: nat, pattern: string): seq<Event> {
    if !InRange(pageNum, pageCount) then [PageMissing(pageNum, pageCount)]
    else
      var path := OutputPathFor(pattern, pageNum, requested);
      [Rendered(pageNum), Wrote(path, FormatFor(path)), Captured(pageNum, path)]
  }

  /** The events of the loop over `pageNums`, one number after the other. */
  function LoopEvents(pageCount: nat, pageNums: seq<int>, requested: nat, pattern: string): seq<Event>
    decreases |pageNums|
  {
    if pageNums == [] then []
    else
      LoopEvents(pageCount, pageNums[..|pageNums| - 1], requested, pattern)
      + PageEvents(pageCount, pageNums[|pageNums| - 1], requested, pattern)
  }

  /** The requested numbers that name a page, in order, repeats kept. */
  function InRangePages(pageNums: seq<int>, pageCount: nat): (pages: seq<nat>)
    ensures forall i :: 0 <= i < |pages| ==> InRange(pages[i], pageCount)
    ensures |pages| <= |pageNums|
    decreases |pageNums|
  {
    if pageNums == [] then []
    else
      var n := pageNums[|pageNums| - 1];
      InRangePages(pageNums[..|pageNums| - 1], pageCount) + (if InRange(n, pageCount) then [n as nat] else [])
  }

  /** The requested numbers that do not, in order. */
  function OutOfRangePages(pageNums: seq<int>, pageCount: nat): (missing: seq<int>)
    ensures forall i :: 0 <= i < |missing| ==> !InRange(missing[i], pageCount)
    decreases |pageNums|
  {
    if pageNums == [] then []
    else
      var n := pageNums[|pageNums| - 1];
      OutOfRangePages(pageNums[..|pageNums| - 1], pageCount) + (if InRange(n, pageCount) then [] else [n])
  }

  /** The numbers reported missing in a trace, in order. */
  function Missing(trace: seq<Event>): seq<int> {
    if trace == [] then []
    else
      var e := trace[|trace| - 1];
      Missing(trace[..|trace| - 1]) + (if e.PageMissing? then [e.number] else [])
  }

  /**
   * The (path, format) target of each page, in order. With several pages
   * requested, two different pages share a path exactly when the pattern
   * has no extension for the regex.
   */
  function Targets(pages: seq<nat>, requested: nat, pattern: string): (t: seq<(string, Format)>)
    ensures |t| == |pages|
    ensures forall i :: 0 <= i < |pages| ==>
      t[i] == (OutputPathFor(pattern, pages[i], requested), FormatFor(OutputPathFor(pattern, pages[i], requested)))
    ensures requested > 1 ==> forall i, j :: 0 <= i < |t| && 0 <= j < |t| && pages[i] != pages[j] ==>
      (t[i].0 == t[j].0 <==> !HasExtension(pattern))
  {
    var t := seq(|pages|, i requires 0 <= i < |pages| =>
      var path := OutputPathFor(pattern, pages[i], requested);
      (path, FormatFor(path)));
    if requested > 1 then AllPathsCollideIff(pattern, requested); t else t
  }

  /** Lines 50-102, for a document pdf.js has loaded. */
  method CapturePages(doc: Document, pageNums: seq<int>, pattern: string) returns (trace: seq<Event>)
    ensures trace == LoopEvents(doc.pageCount, pageNums, |pageNums|, pattern) + [Closed]
    ensures Writes(trace) == Targets(InRangePages(pageNums, doc.pageCount), |pageNums|, pattern)
    ensures Missing(trace) == OutOfRangePages(pageNums, doc.pageCount)
  {
    trace := [];
    for i := 0 to |pageNums|
      invariant trace == LoopEvents(doc.pageCount, pageNums[..i], |pageNums|, pattern)
    {
      LoopEventsStep(doc.pageCount, pageNums, i, |pageNums|, pattern);
      var events := CapturePage(doc, pageNums[i], |pageNums|, pattern);
      trace := trace + events;
    }
    assert pageNums[..|pageNums|] == pageNums;
    trace := trace + [Closed];
    CaptureEffect(doc.pageCount, pageNums, pattern);
  }

  /** Lines 59-98: one iteration of the loop, for page `pageNum` of `requested`. */
  method CapturePage(doc: Document, pageNum: int, requested: nat, pattern: string) returns (events: seq<Event>)
    ensures events == PageEvents(doc.pageCount, pageNum, requested, pattern)
  {
    if pageNum < 1 || pageNum > doc.pageCount {
      return [PageMissing(pageNum, doc.pageCount)];
    }
    events := [Rendered(pageNum)];
    var outputPath := OutputPathFor(pattern, pageNum, requested);
    var format := FormatFor(outputPath);
    events := events + [Wrote(outputPath, format), Captured(pageNum, outputPath)];
  }

  lemma LoopEventsStep(pageCount: nat, pageNums: seq<int>, i: nat, requested: nat, pattern: string)
    requires i < |pageNums|
    ensures LoopEvents(pageCount, pageNums[..i + 1], requested, pattern)
         == LoopEvents(pageCount, pageNums[..i], requested, pattern) + PageEvents(pageCount, pageNums[i], requested, pattern)
  {
    assert pageNums[..i + 1][..i] == pageNums[..i];
  }

  /** What the whole run writes and reports: the loop's effect, closing adds none. */
  lemma CaptureEffect(pageCount: nat, pageNums: seq<int>, pattern: string)
    ensures Writes(LoopEvents(pageCount, pageNums, |pageNums|, pattern) + [Closed])
         == Targets(InRangePages(pageNums, pageCount), |pageNums|, pattern)
    ensures Missing(LoopEvents(pageCount, pageNums, |pageNums|, pattern) + [Closed])
         == OutOfRangePages(pageNums, pageCount)
  {
    var loop := LoopEvents(pageCount, pageNums, |pageNums|, pattern);
    WritesAppend(loop, [Closed]);
    CaptureWritesInOrder(pageCount, pageNums, |pageNums|, pattern);
    MissingAppend(loop, [Closed]);
    CaptureReportsMissing(pageCount, pageNums, |pageNums|, pattern);
    assert [Closed][..0] == [];
  }

  lemma {:induction false} MissingAppend(a: seq<Event>, b: seq<Event>)
    ensures Missing(a + b) == Missing(a) + Missing(b)
    decreases |b|
  {
    if b == [] {
      assert a + b == a;
    } else {
      assert (a + b)[..|a + b| - 1] == a + b[..|b| - 1];
      MissingAppend(a, b[..|b| - 1]);
    }
  }

  /** What one requested number contributes to the writes and to the reports. */
  lemma PageEventsEffect(pageCount: nat, n: int, requested: nat, pattern: string)
    ensures Writes(PageEvents(pageCount, n, requested, pattern))
         == if InRange(n, pageCount) then Targets([n as nat], requested, pattern) else []
    ensures Missing(PageEvents(pageCount, n, requested, pattern))
         == if InRange(n, pageCount) then [] else [n]
  {
    var events := PageEvents(pageCount, n, requested, pattern);
    if InRange(n, pageCount) {
      var path := OutputPathFor(pattern, n, requested);
      var target := Targets([n as nat], requested, pattern);
      assert target == [(path, FormatFor(path))];
      OneWriteAmongThree(Rendered(n), Wrote(path, FormatFor(path)), Captured(n, path));
    } else {
      assert events == [PageMissing(n, pageCount)];
      assert events[..0] == [];
    }
  }

  /** The render, write, log triple of a captured page writes once and reports nothing. */
  lemma OneWriteAmongThree(a: Event, b: Event, c: Event)
    requires a.Rendered? && b.Wrote? && c.Captured?
    ensures Writes([a, b, c]) == [(b.path, b.format)]
    ensures Missing([a, b, c]) == []
  {
    assert [a, b, c][..2] == [a, b];
    assert [a, b][..1] == [a];
    assert [a][..0] == [];
    assert Writes([a]) == [] && Missing([a]) == [];
    assert Writes([a, b]) == [(b.path, b.format)] && Missing([a, b]) == [];
  }

  /**
   * Exactly the in-range numbers are written, in the order requested and
   * once per occurrence, each to its templated path in its chosen format.
   */
  lemma {:induction false} CaptureWritesInOrder(pageCount: nat, pageNums: seq<int>, requested: nat, pattern: string)
    ensures Writes(LoopEvents(pageCount, pageNums, requested, pattern))
         == Targets(InRangePages(pageNums, pageCount), requested, pattern)
    decreases |pageNums|
  {
    if pageNums != [] {
      var init, n := pageNums[..|pageNums| - 1], pageNums[|pageNums| - 1];
      CaptureWritesInOrder(pageCount, init, requested, pattern);
      WritesAppend(LoopEvents(pageCount, init, requested, pattern), PageEvents(pageCount, n, requested, pattern));
      PageEventsEffect(pageCount, n, requested, pattern);
      var before := InRangePages(init, pageCount);
      var added := if InRange(n, pageCount) then [n as nat] else [];
      TargetsAppend(before, added, requested, pattern);
    }
  }

  lemma TargetsAppend(a: seq<nat>, b: seq<nat>, requested: nat, pattern: string)
    ensures Targets(a + b, requested, pattern) == Targets(a, requested, pattern) + Targets(b, requested, pattern)
  {
    var l, r := Targets(a + b, requested, pattern), Targets(a, requested, pattern) + Targets(b, requested, pattern);
    assert |l| == |r|;
    forall i | 0 <= i < |l| ensures l[i] == r[i] {
      if i < |a| { assert (a + b)[i] == a[i]; } else { assert (a + b)[i] == b[i - |a|]; }
    }
  }

  /**
   * Exactly the out-of-range numbers are reported, in order; each report
   * names the page count.
   */
  lemma {:induction false} CaptureReportsMissing(pageCount: nat, pageNums: seq<int>, requested: nat, pattern: string)
    ensures Missing(LoopEvents(pageCount, pageNums, requested, pattern)) == OutOfRangePages(pageNums, pageCount)
    decreases |pageNums|
  {
    if pageNums != [] {
      var init, n := pageNums[..|pageNums| - 1], pageNums[|pageNums| - 1];
      CaptureReportsMissing(pageCount, init, requested, pattern);
      MissingAppend(LoopEvents(pageCount, init, requested, pattern), PageEvents(pageCount, n, requested, pattern));
      PageEventsEffect(pageCount, n, requested, pattern);
    }
  }

  /** Every report names the page count and a number outside 1..pageCount. */
  lemma {:induction false} ReportsNamePageCount(pageCount: nat, pageNums: seq<int>, requested: nat, pattern: string)
    ensures forall e :: e in LoopEvents(pageCount, pageNums, requested, pattern) && e.PageMissing? ==>
      e.number in pageNums && e.pageCount == pageCount && !InRange(e.number, pageCount)
    decreases |pageNums|
  {
    if pageNums != [] {
      var init, n := pageNums[..|pageNums| - 1], pageNums[|pageNums| - 1];
      ReportsNamePageCount(pageCount, init, requested, pattern);
      assert pageNums == init + [n];
    }
  }

  /** Every number is accounted for: written or reported, never both, never neither. */
  lemma {:induction false} EveryNumberAccountedFor(pageNums: seq<int>, pageCount: nat)
    ensures multiset(InRangePages(pageNums, pageCount)) + multiset(OutOfRangePages(pageNums, pageCount)) == multiset(pageNums)
    decreases |pageNums|
  {
    if pageNums != [] {
      var init, last := pageNums[..|pageNums| - 1], pageNums[|pageNums| - 1];
      EveryNumberAccountedFor(init, pageCount);
      assert pageNums == init + [last];
      AccountedForLast(init, last, pageCount);
    }
  }

  lemma AccountedForLast(init: seq<int>, last: int, pageCount: nat)
    ensures multiset(InRangePages(init + [last], pageCount)) + multiset(OutOfRangePages(init + [last], pageCount))
         == multiset(OutOfRangePages(init, pageCount)) + multiset{last} + multiset(InRangePages(init, pageCount))
  {
    var pageNums := init + [last];
    assert pageNums[..|pageNums| - 1] == init;
    var kept, dropped := InRangePages(init, pageCount), OutOfRangePages(init, pageCount);
    if InRange(last, pageCount) {
      assert InRangePages(pageNums, pageCount) == kept + [last as nat];
      assert OutOfRangePages(pageNums, pageCount) == dropped + [];
    } else {
      assert InRangePages(pageNums, pageCount) == kept + [];
      assert OutOfRangePages(pageNums, pageCount) == dropped + [last];
    }
  }

  /** A page requested k times is written k times. */
  lemma RepeatsWrittenAgain(pageNums: seq<int>, pageCount: nat, n: nat)
    requires InRange(n, pageCount)
    ensures multiset(InRangePages(pageNums, pageCount))[n] == multiset(pageNums)[n]
  {
    EveryNumberAccountedFor(pageNums, pageCount);
    var missing := OutOfRangePages(pageNums, pageCount);
    assert n !in missing;
  }

  /**
   * The number of pages that decides templating is the length of the whole
   * list, skipped numbers included: asking for a missing page and page `n`
   * writes only page `n`, but to the templated path (for "out.png" and
   * page 2, "out-2.png") ...
   */
  lemma SkippedNumbersStillCount(pageCount: nat, skipped: int, n: nat, pattern: string)
    requires !InRange(skipped, pageCount) && InRange(n, pageCount)
    ensures Writes(LoopEvents(pageCount, [skipped, n], 2, pattern)) == Targets([n], 2, pattern)
  {
    CaptureWritesInOrder(pageCount, [skipped, n], 2, pattern);
    SkippedThenInRange(pageCount, skipped, n);
  }

  lemma SkippedThenInRange(pageCount: nat, skipped: int, n: nat)
    requires !InRange(skipped, pageCount) && InRange(n, pageCount)
    ensures InRangePages([skipped, n], pageCount) == [n]
  {
    assert [skipped, n][..1] == [skipped];
    assert [skipped][..0] == [];
    assert InRangePages([skipped], pageCount) == [];
  }

  /** ... whereas asking for `n` alone writes to the pattern itself. */
  lemma SingleRequestWritesPattern(pageCount: nat, n: nat, pattern: string)
    requires InRange(n, pageCount)
    ensures Writes(LoopEvents(pageCount, [n], 1, pattern)) == [(pattern, FormatFor(pattern))]
  {
    CaptureWritesInOrder(pageCount, [n], 1, pattern);
    SinglePageInRange(pageCount, n);
    SingleTarget(n, pattern);
  }

  lemma SinglePageInRange(pageCount: nat, n: nat)
    requires InRange(n, pageCount)
    ensures InRangePages([n], pageCount) == [n]
  {
    assert [n][..0] == [];
  }

  lemma SingleTarget(n: nat, pattern: string)
    ensures Targets([n], 1, pattern) == [(pattern, FormatFor(pattern))]
  {
    SinglePageUsesPattern(pattern, n);
    var t := Targets([n], 1, pattern);
    assert t[0] == (pattern, FormatFor(pattern));
  }
}

/**
 * `main` and the top-level `catch` (capture.ts lines 104-147): the command
 * line decides between the usage text, info mode and capture mode.
 *
 * The file system and pdf.js are parameters: `fileExists` is what
 * `fs.existsSync(args[0])` answers, and `loaded` is the document pdf.js
 * loads from that file, or None when reading or parsing it throws (the
 * `catch` then prints the error and exits with 1).
 */
module Cli {
  import opened Wrappers
  import opened PageList
  import opened Trace
  import opened PdfInfo
  import opened Capture
  import NodePath

  /** Lines 104-147, from `process.argv.slice(2)` to the exit code. */
  method Run(args: seq<string>, fileExists: bool, loaded: Option<Document>) returns (exitCode: nat, trace: seq<Event>)
    // lines 107-117: no arguments prints the usage text and succeeds
    ensures |args| == 0 ==> exitCode == 0 && trace == [Usage]
    // lines 121-124: a missing file is reported before anything else
    ensures |args| >= 1 && !fileExists ==> exitCode == 1 && trace == [FileNotFound(args[0])]
    // lines 126-128: one argument shows the info
    ensures |args| == 1 && fileExists ==>
      if loaded.None? then exitCode == 1 && trace == [LoadFailed]
      else exitCode == 0 && trace == InfoEvents(args[0], loaded.value)
    // lines 138-141: two arguments lack the output pattern
    ensures |args| == 2 && fileExists ==> exitCode == 1 && trace == [MissingOutput]
    // lines 129-137: three or more arguments capture; the page list is checked before the file is loaded
    ensures |args| >= 3 && fileExists ==>
      if ParsePageList(args[1]).None? then exitCode == 1 && trace == [InvalidPages(args[1])]
      else if loaded.None? then exitCode == 1 && trace == [LoadFailed]
      else
        var pageNums := ParsePageList(args[1]).value;
        exitCode == 0
        && trace == LoopEvents(loaded.value.pageCount, pageNums, |pageNums|, args[2]) + [Closed]
        && Writes(trace) == Targets(InRangePages(pageNums, loaded.value.pageCount), |pageNums|, args[2])
    ensures exitCode == 0 || exitCode == 1
    // a page number outside the document does not change the exit code
    ensures exitCode == 0 <==>
      |args| == 0 || (fileExists && loaded.Some? && (|args| == 1 || (|args| >= 3 && ParsePageList(args[1]).Some?)))
    // only capture mode writes files
    ensures Writes(trace) != [] ==> |args| >= 3 && fileExists && loaded.Some? && ParsePageList(args[1]).Some?
  {
    if |args| == 0 {
      return 0, [Usage];
    }
    var pdfPath := args[0];
    if !fileExists {
      return 1, [FileNotFound(pdfPath)];
    }
    if |args| == 1 {
      if loaded.None? {
        return 1, [LoadFailed];
      }
      trace := ShowInfo(pdfPath, loaded.value);
      InfoWritesNothing(pdfPath, loaded.value);
      return 0, trace;
    } else if |args| >= 3 {
      var pageNums := ParsePageList(args[1]);
      if pageNums.None? {
        return 1, [InvalidPages(args[1])];
      }
      var outputPath := args[2];
      if loaded.None? {
        return 1, [LoadFailed];
      }
      trace := CapturePages(loaded.value, pageNums.value, outputPath);
      return 0, trace;
    } else {
      return 1, [MissingOutput];
    }
  }

  /** Info mode prints and writes no file. */
  lemma InfoWritesNothing(pdfPath: string, doc: Document)
    ensures Writes(InfoEvents(pdfPath, doc)) == []
  {
    var m := MetadataLines(doc.info);
    FieldLinesFromFieldsOrNone(doc.info);
    NoWriteEvents(m);
    var d := DimensionLines(doc.pageCount);
    DimensionLinesInOrder(doc.pageCount);
    forall e | e in d ensures !e.Wrote? {
      var i :| 0 <= i < |d| && d[i] == e;
    }
    NoWriteEvents(d);
    var head: seq<Event> := [FileName(NodePath.Basename(pdfPath)), PageTotal(doc.pageCount)];
    WritesAppend(head, m);
    WritesAppend(head + m, [DimensionsHeading]);
    WritesAppend(head + m + [DimensionsHeading], DimensionLines(doc.pageCount));
    WritesAppend(head + m + [DimensionsHeading] + DimensionLines(doc.pageCount), [Closed]);
    assert Writes(head) == Writes([FileName(NodePath.Basename(pdfPath))]) + Writes([PageTotal(doc.pageCount)]) by {
      WritesAppend([FileName(NodePath.Basename(pdfPath))], [PageTotal(doc.pageCount)]);
    }
  }

  lemma FieldLinesFromFieldsOrNone(info: Option<map<string, string>>)
    ensures forall e :: e in MetadataLines(info) ==> e.MetadataLine?
  {
    if info.Some? {
      FieldLinesFromFields(info.value, MetadataFields);
    }
  }
}

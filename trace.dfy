/**
 * What one run of the tool does that can be observed, as a sequence of
 * events: the lines it prints, the pages it renders, the files it writes.
 * The pdf.js document is reduced to what the tool reads from it.
 */
module Trace {
  import opened Wrappers
  import opened OutputTarget

  /**
   * A loaded PDF: its page count and, when pdf.js reports one, its info
   * dictionary (field name to string value).
   */
  datatype Document = Document(pageCount: nat, info: Option<map<string, string>>)

  datatype Event =
    | Usage                                    // the usage text, on standard output
    | FileNotFound(path: string)               // "Error: File not found: <path>"
    | InvalidPages(arg: string)                // "Error: Invalid page number(s): <arg>"
    | MissingOutput                            // "Error: Please provide both page number(s) and output file"
    | LoadFailed                               // "Error: <message>" from the top-level catch
    | FileName(name: string)                   // "File: <basename>"
    | PageTotal(count: nat)                    // "Pages: <count>"
    | MetadataLine(caption: string, value: string) // "<caption>: <value>"
    | DimensionsHeading                        // "Page dimensions:"
    | PageDimensions(page: nat)                // "  Page <page>: <w> x <h> pt"
    | PageMissing(number: int, pageCount: nat) // "Error: Page <number> does not exist. PDF has <pageCount> pages."
    | Rendered(page: nat)                      // the page drawn onto a fresh canvas
    | Wrote(path: string, format: Format)      // the encoded canvas written to <path>
    | Captured(page: nat, path: string)        // "Captured page <page> to <path> (...)"
    | Closed                                   // the document destroyed

  /**
   * The files written, in order, with the format of each: one entry per
   * write event of the trace and nothing else.
   */
  function Writes(trace: seq<Event>): (w: seq<(string, Format)>)
    ensures |w| <= |trace|
    ensures forall i :: 0 <= i < |w| ==> Wrote(w[i].0, w[i].1) in trace
    ensures forall e :: e in trace && e.Wrote? ==> (e.path, e.format) in w
  {
    if trace == [] then []
    else
      var e := trace[|trace| - 1];
      Writes(trace[..|trace| - 1]) + (if e.Wrote? then [(e.path, e.format)] else [])
  }

  lemma {:induction false} WritesAppend(a: seq<Event>, b: seq<Event>)
    ensures Writes(a + b) == Writes(a) + Writes(b)
    decreases |b|
  {
    if b == [] {
      assert a + b == a;
    } else {
      assert (a + b)[..|a + b| - 1] == a + b[..|b| - 1];
      WritesAppend(a, b[..|b| - 1]);
    }
  }

  /** A trace without write events writes nothing. */
  lemma {:induction false} NoWriteEvents(trace: seq<Event>)
    requires forall e :: e in trace ==> !e.Wrote?
    ensures Writes(trace) == []
    decreases |trace|
  {
    if trace != [] {
      NoWriteEvents(trace[..|trace| - 1]);
    }
  }
}

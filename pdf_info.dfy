/**
 * `getPdfInfo` (capture.ts lines 17-48): the file name, the page count,
 * the metadata fields that have a value, and one line per page.
 */
module PdfInfo {
  import opened Wrappers
  import opened Trace
  import NodePath

  /** The info fields printed, in print order, each with its caption (lines 28-34). */
  const MetadataFields: seq<(string, string)> := [
    ("Title", "Title"), ("Author", "Author"), ("Subject", "Subject"),
    ("Creator", "Creator"), ("Producer", "Producer"),
    ("CreationDate", "Created"), ("ModDate", "Modified")]

  /** `if (info.<key>)`: the field is present and not the empty string. */
  predicate Truthy(info: map<string, string>, key: string) {
    key in info && info[key] != ""
  }

  /** One of lines 28-34: `if (info.<key>) console.log("<caption>: " + info.<key>)`. */
  function FieldLine(info: map<string, string>, field: (string, string)): seq<Event> {
    if Truthy(info, field.0) then [MetadataLine(field.1, info[field.0])] else []
  }

  /** The lines for `fields`, in order, skipping the fields without a value. */
  function FieldLines(info: map<string, string>, fields: seq<(string, string)>): seq<Event>
    decreases |fields|
  {
    if fields == [] then []
    else FieldLines(info, fields[..|fields| - 1]) + FieldLine(info, fields[|fields| - 1])
  }

  /** Lines 26-35: nothing at all when pdf.js reports no info dictionary. */
  function MetadataLines(info: Option<map<string, string>>): seq<Event> {
    match info
    case None => []
    case Some(m) => FieldLines(m, MetadataFields)
  }

  /** Lines 39-45: one line per page, pages 1 to `pageCount`. */
  function DimensionLines(pageCount: nat): seq<Event> {
    if pageCount == 0 then [] else DimensionLines(pageCount - 1) + [PageDimensions(pageCount)]
  }

  /** Everything info mode prints for a loaded document, then the document is destroyed. */
  function InfoEvents(pdfPath: string, doc: Document): seq<Event> {
    [FileName(NodePath.Basename(pdfPath)), PageTotal(doc.pageCount)]
    + MetadataLines(doc.info)
    + [DimensionsHeading]
    + DimensionLines(doc.pageCount)
    + [Closed]
  }

  /** Lines 17-48, for a document pdf.js has loaded. */
  method ShowInfo(pdfPath: string, doc: Document) returns (trace: seq<Event>)
    ensures trace == InfoEvents(pdfPath, doc)
  {
    trace := [FileName(NodePath.Basename(pdfPath)), PageTotal(doc.pageCount)];
    var head := trace;
    if doc.info.Some? {
      var info := doc.info.value;
      trace := PrintField(info, "Title", "Title", trace);
      trace := PrintField(info, "Author", "Author", trace);
      trace := PrintField(info, "Subject", "Subject", trace);
      trace := PrintField(info, "Creator", "Creator", trace);
      trace := PrintField(info, "Producer", "Producer", trace);
      trace := PrintField(info, "CreationDate", "Created", trace);
      trace := PrintField(info, "ModDate", "Modified", trace);
      MetadataFieldLines(info);
      AppendSeven(head, FieldLine(info, ("Title", "Title")), FieldLine(info, ("Author", "Author")),
        FieldLine(info, ("Subject", "Subject")), FieldLine(info, ("Creator", "Creator")),
        FieldLine(info, ("Producer", "Producer")), FieldLine(info, ("CreationDate", "Created")),
        FieldLine(info, ("ModDate", "Modified")));
    }
    assert trace == head + MetadataLines(doc.info);
    trace := trace + [DimensionsHeading];
    var body := trace;
    for i := 1 to doc.pageCount + 1
      invariant trace == body + DimensionLines(i - 1)
    {
      trace := trace + [PageDimensions(i)];
    }
    trace := trace + [Closed];
  }

  /** One `if (info.<key>)` line of lines 28-34. */
  method PrintField(info: map<string, string>, key: string, caption: string, trace: seq<Event>) returns (trace': seq<Event>)
    ensures trace' == trace + FieldLine(info, (key, caption))
  {
    trace' := trace;
    if key in info && info[key] != "" {
      trace' := trace' + [MetadataLine(caption, info[key])];
    }
  }

  /** The table, unfolded field by field. */
  lemma MetadataFieldLines(info: map<string, string>)
    ensures FieldLines(info, MetadataFields) ==
      FieldLine(info, ("Title", "Title")) + FieldLine(info, ("Author", "Author"))
      + FieldLine(info, ("Subject", "Subject")) + FieldLine(info, ("Creator", "Creator"))
      + FieldLine(info, ("Producer", "Producer")) + FieldLine(info, ("CreationDate", "Created"))
      + FieldLine(info, ("ModDate", "Modified"))
  {
    var f := MetadataFields;
    var l := seq(7, i requires 0 <= i < 7 => FieldLine(info, f[i]));
    var g0: seq<(string, string)> := [];
    var g1 := g0 + [f[0]];
    var g2 := g1 + [f[1]];
    var g3 := g2 + [f[2]];
    var g4 := g3 + [f[3]];
    var g5 := g4 + [f[4]];
    var g6 := g5 + [f[5]];
    var g7 := g6 + [f[6]];
    assert g7 == f;
    FieldLinesSnoc(info, g0, f[0]);
    FieldLinesSnoc(info, g1, f[1]);
    FieldLinesSnoc(info, g2, f[2]);
    FieldLinesSnoc(info, g3, f[3]);
    FieldLinesSnoc(info, g4, f[4]);
    FieldLinesSnoc(info, g5, f[5]);
    FieldLinesSnoc(info, g6, f[6]);
    assert FieldLines(info, g1) == l[0];
    assert FieldLines(info, f) == l[0] + l[1] + l[2] + l[3] + l[4] + l[5] + l[6];
  }

  lemma AppendSeven<T>(head: seq<T>, l1: seq<T>, l2: seq<T>, l3: seq<T>, l4: seq<T>, l5: seq<T>, l6: seq<T>, l7: seq<T>)
    ensures head + (l1 + l2 + l3 + l4 + l5 + l6 + l7) == head + l1 + l2 + l3 + l4 + l5 + l6 + l7
  {
  }

  lemma FieldLinesSnoc(info: map<string, string>, fields: seq<(string, string)>, field: (string, string))
    ensures FieldLines(info, fields + [field]) == FieldLines(info, fields) + FieldLine(info, field)
  {
    assert (fields + [field])[..|fields|] == fields;
  }

  /** Every metadata line comes from a listed field that has a value, with that value. */
  lemma {:induction false} FieldLinesFromFields(info: map<string, string>, fields: seq<(string, string)>)
    ensures forall e :: e in FieldLines(info, fields) ==>
      e.MetadataLine? &&
      exists k :: 0 <= k < |fields| && fields[k].1 == e.caption && Truthy(info, fields[k].0) && e.value == info[fields[k].0]
    decreases |fields|
  {
    if fields != [] {
      var init := fields[..|fields| - 1];
      FieldLinesFromFields(info, init);
      forall k | 0 <= k < |init| ensures init[k] == fields[k] { }
    }
  }

  /** Every listed field that has a value gets its line. */
  lemma {:induction false} FieldLinesCoverFields(info: map<string, string>, fields: seq<(string, string)>, k: nat)
    requires k < |fields| && Truthy(info, fields[k].0)
    ensures MetadataLine(fields[k].1, info[fields[k].0]) in FieldLines(info, fields)
    decreases |fields|
  {
    if k < |fields| - 1 {
      FieldLinesCoverFields(info, fields[..|fields| - 1], k);
    }
  }

  /**
   * A metadata line with caption C is printed exactly when C's field has a
   * value, and it carries that value; so a document without a Title never
   * gets a "Title:" line, and one without an info dictionary gets none.
   */
  lemma MetadataLineIff(info: Option<map<string, string>>, k: nat, value: string)
    requires k < |MetadataFields|
    ensures MetadataLine(MetadataFields[k].1, value) in MetadataLines(info)
        <==> info.Some? && Truthy(info.value, MetadataFields[k].0) && value == info.value[MetadataFields[k].0]
  {
    if info.Some? {
      var m := info.value;
      FieldLinesFromFields(m, MetadataFields);
      if Truthy(m, MetadataFields[k].0) {
        FieldLinesCoverFields(m, MetadataFields, k);
      }
      if MetadataLine(MetadataFields[k].1, value) in MetadataLines(info) {
        var j :| 0 <= j < |MetadataFields| && MetadataFields[j].1 == MetadataFields[k].1
          && Truthy(m, MetadataFields[j].0) && value == m[MetadataFields[j].0];
        CaptionsDistinct(j, k);
      }
    }
  }

  /** No two fields share a caption. */
  lemma CaptionsDistinct(j: nat, k: nat)
    requires j < |MetadataFields| && k < |MetadataFields|
    requires MetadataFields[j].1 == MetadataFields[k].1
    ensures j == k
  {
    var c := seq(7, i requires 0 <= i < 7 => MetadataFields[i].1);
    assert c == ["Title", "Author", "Subject", "Creator", "Producer", "Created", "Modified"];
    assert c[j] == c[k];
    assert |c[j]| == |c[k]| && c[j][0] == c[k][0];
    assert |c[j]| > 6 ==> c[j][6] == c[k][6];
  }

  /** Pages are listed 1, 2, ..., pageCount, in that order. */
  lemma {:induction false} DimensionLinesInOrder(pageCount: nat)
    ensures |DimensionLines(pageCount)| == pageCount
    ensures forall i :: 0 <= i < pageCount ==> DimensionLines(pageCount)[i] == PageDimensions(i + 1)
  {
    if pageCount > 0 {
      DimensionLinesInOrder(pageCount - 1);
    }
  }
}

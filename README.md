# capture.ts, modelled in Dafny

`skills/react-pdf/scripts/capture.ts` is a command-line tool that inspects a PDF and captures some of its pages as images. It has two modes:

- **Info mode** prints the file name, the page count, the info-dictionary fields that have a value, and one line per page.
- **Capture mode** takes a comma-separated page list and an output pattern. It renders each requested page and writes it as PNG or JPEG. The pattern gets `-N` inserted before its extension when more than one page is requested.

This project models the decisions the tool makes around pdf.js and node-canvas:

- the argument dispatch in `main`;
- page-list parsing;
- output-path templating;
- image-format selection;
- the capture loop;
- the info listing;
- the filter that silences two pdf.js warnings.

A run is modelled as a sequence of `Trace.Event`s: the lines printed, the pages rendered, the files written. A pdf.js document is reduced to what the tool reads from it, namely its page count and its info dictionary.

Modules, one file each:

- `Wrappers`: `Option`.
- `Decimal`: digits and the decimal numerals of template interpolation.
- `NodePath`: POSIX `path.basename` and `path.extname`.
- `PageList`: `split(",")`, ECMAScript `trim` and `parseInt(s, 10)`.
- `OutputTarget`: the `/(\.[^.]+)$/` replacement, `toLowerCase` and the extension-to-format chain.
- `WarnFilter`: the `console.warn` predicate.
- `Trace`: the events, and the writes a trace performs.
- `Capture`: `capturePages`.
- `PdfInfo`: `getPdfInfo`.
- `Cli`: `main` and its `catch`.

The imperative parts are methods whose loops append to the trace, each proved equal to a specification function: the capture loop with its `continue`, the page listing and the dispatch with early exits. The string logic consists of functions, with lemmas about them.

Three behaviours of the code are easy to miss, and the model follows the code:

- A requested page number outside `1..numPages` is reported, and the run still exits with 0. `Cli.Run` states the exit code exactly.
- With several pages, a pattern without an extension, or one ending in `.`, is used unchanged for every page. The pages then overwrite one another, and nothing reports the collision (`OutputTarget.PathsCollideIff`).
- Duplicate page numbers are captured once per occurrence (`Capture.RepeatsWrittenAgain`).

## Model

| member | source | states |
|---|---|---|
| Cli.Run | skills/react-pdf/scripts/capture.ts:104-147 | no arguments prints the usage and exits 0; a missing file is reported with its path and exits 1; one argument gives exactly the info listing (or the load error, exit 1); two arguments give the missing-output error, exit 1; three or more check the page list before loading the file (invalid list → error naming `args[1]`, exit 1), then run the capture with `args[2]`, ignoring further arguments; the exit code is 0 exactly when usage was shown or the file loaded and the arguments were usable, whatever the page numbers are; files are written only in capture mode |
| Cli.InfoWritesNothing | skills/react-pdf/scripts/capture.ts:17-48 | info mode writes no file |
| Capture.CapturePages | skills/react-pdf/scripts/capture.ts:50-102 | the loop produces, for each requested number in order, either the missing-page error or render/write/report, then destroys the document; the files written are exactly the templated targets of the in-range numbers, in request order, and the numbers reported missing are exactly the out-of-range ones, in order |
| Capture.CapturePage | skills/react-pdf/scripts/capture.ts:59-98 | one iteration appends exactly the events of its page number: the missing-page error, or render, write to the templated path in the chosen format, report |
| Capture.CaptureEffect | skills/react-pdf/scripts/capture.ts:58-101 | the loop followed by `destroy` writes exactly the targets of the in-range numbers and reports exactly the out-of-range ones |
| Capture.InRangePages | skills/react-pdf/scripts/capture.ts:58-64 | every page kept lies in `1..numPages`, and at most as many are kept as were requested |
| Capture.OutOfRangePages | skills/react-pdf/scripts/capture.ts:59-64 | every number reported lies outside `1..numPages` |
| Capture.Targets | skills/react-pdf/scripts/capture.ts:77-95 | one write per page, the i-th going to the templated path of the i-th page in the format chosen from that path; with several pages requested, two different pages share a path if and only if the pattern has no extension for the regex, so only then does a later page overwrite an earlier one |
| Capture.PageEventsEffect | skills/react-pdf/scripts/capture.ts:58-98 | one requested number writes one file (its templated path) when in range and nothing otherwise, and is reported missing exactly when out of range |
| Capture.OneWriteAmongThree | skills/react-pdf/scripts/capture.ts:75-98 | render, write, report performs exactly the one write |
| Capture.MissingAppend | skills/react-pdf/scripts/capture.ts:59-64 | the missing-page reports of two consecutive stretches are those of the first followed by those of the second |
| Capture.CaptureWritesInOrder | skills/react-pdf/scripts/capture.ts:58-98 | the loop writes exactly the targets of the in-range numbers, in request order |
| Capture.TargetsAppend | skills/react-pdf/scripts/capture.ts:58-98 | the targets of consecutive page stretches concatenate |
| Capture.CaptureReportsMissing | skills/react-pdf/scripts/capture.ts:59-64 | the loop reports exactly the out-of-range numbers, in request order |
| Capture.ReportsNamePageCount | skills/react-pdf/scripts/capture.ts:60-62 | every missing-page error names a requested number that is out of range, and the document's page count |
| Capture.EveryNumberAccountedFor | skills/react-pdf/scripts/capture.ts:58-64 | the captured and the reported numbers together are exactly the requested ones, counted with multiplicity |
| Capture.AccountedForLast | skills/react-pdf/scripts/capture.ts:58-64 | one more requested number adds exactly one occurrence of itself to the captured and the reported numbers together |
| Capture.RepeatsWrittenAgain | skills/react-pdf/scripts/capture.ts:58 | an in-range number is captured as many times as it is requested |
| Capture.SkippedNumbersStillCount | skills/react-pdf/scripts/capture.ts:78-80 | templating depends on the length of the whole request list, skipped numbers included: `[skipped, n]` writes only `n`, to its suffixed path |
| Capture.SingleRequestWritesPattern | skills/react-pdf/scripts/capture.ts:78-80 | `[n]` alone writes the bare pattern, in the pattern's format |
| PdfInfo.ShowInfo | skills/react-pdf/scripts/capture.ts:17-48 | prints the base name, the page count, the metadata lines, the heading, one line per page and then destroys the document, exactly as `InfoEvents` lists them |
| PdfInfo.PrintField | skills/react-pdf/scripts/capture.ts:28-34 | one `if (info.X)` line appends the captioned line exactly when the field is truthy |
| PdfInfo.MetadataFieldLines | skills/react-pdf/scripts/capture.ts:28-34 | the metadata block is the seven field lines in source order |
| PdfInfo.FieldLinesSnoc | skills/react-pdf/scripts/capture.ts:28-34 | the lines for one more field are appended after those of the fields before it |
| PdfInfo.FieldLinesFromFields | skills/react-pdf/scripts/capture.ts:26-35 | every metadata line is a listed field that has a value, with its caption and that value |
| PdfInfo.FieldLinesCoverFields | skills/react-pdf/scripts/capture.ts:26-35 | every listed field with a value gets its line |
| PdfInfo.MetadataLineIff | skills/react-pdf/scripts/capture.ts:26-35 | a line with a field's caption ("Created" for CreationDate, "Modified" for ModDate) and a value is printed if and only if there is an info dictionary whose field is non-empty with that value |
| PdfInfo.DimensionLinesInOrder | skills/react-pdf/scripts/capture.ts:39-45 | pages are listed 1 to numPages, each once, in order |
| Trace.Writes | skills/react-pdf/scripts/capture.ts:95 | every entry comes from a write event of the trace, and every write event of the trace has its entry |
| Trace.NoWriteEvents | skills/react-pdf/scripts/capture.ts:95 | a trace without write events writes nothing |
| Trace.WritesAppend | skills/react-pdf/scripts/capture.ts:95 | the writes of consecutive stretches of a run concatenate |
| OutputTarget.FindExtensionMatch | skills/react-pdf/scripts/capture.ts:79 | a match found is a position where a dot starts a non-empty dot-free suffix, and no position from `from` on matches when none is found |
| OutputTarget.ExtensionMatchUnique | skills/react-pdf/scripts/capture.ts:79 | the regex can match at one position only |
| OutputTarget.HasExtensionIff | skills/react-pdf/scripts/capture.ts:79 | the regex matches exactly when the pattern contains a dot and does not end in one |
| OutputTarget.LastDot | skills/react-pdf/scripts/capture.ts:79 | the last dot of a string is a dot with no dot after it |
| OutputTarget.TemplateInsertsPageNumber | skills/react-pdf/scripts/capture.ts:77-80 | with several pages, `X.E` (E non-empty, dot-free) becomes `X-N.E` |
| OutputTarget.TemplateExamples | skills/react-pdf/scripts/capture.ts:77-80 | `out.png` becomes `out-3.png` for page 3 of two, stays `out.png` for one page, and `out` is never changed |
| OutputTarget.TemplateIgnoresDirectories | skills/react-pdf/scripts/capture.ts:79 | the regex is not path-aware: `a.b/c` becomes `a-2.b/c` |
| OutputTarget.TemplateKeepsPatternWithoutExtension | skills/react-pdf/scripts/capture.ts:79 | a pattern with no dot, or ending in a dot, is returned unchanged |
| OutputTarget.SinglePageUsesPattern | skills/react-pdf/scripts/capture.ts:78-80 | with one requested page the pattern is used as it is |
| OutputTarget.PathsCollideIff | skills/react-pdf/scripts/capture.ts:77-80 | with several pages, two different page numbers get the same path if and only if the pattern has no extension for the regex |
| OutputTarget.AllPathsCollideIff | skills/react-pdf/scripts/capture.ts:77-80 | the same, for every pair of different page numbers at once |
| OutputTarget.Lower | skills/react-pdf/scripts/capture.ts:83 | no upper-case ASCII letter is left, each character is mapped on its own and the length is kept |
| OutputTarget.LowerIdempotent | skills/react-pdf/scripts/capture.ts:83 | lower-casing twice is lower-casing once |
| OutputTarget.FormatForExtension | skills/react-pdf/scripts/capture.ts:86-93 | the format is one of the two encoder calls: PNG, or JPEG at quality 0.9 |
| OutputTarget.FormatChoice | skills/react-pdf/scripts/capture.ts:83-93 | JPEG at quality 0.9 exactly for `.jpg` or `.jpeg` in any case, PNG for everything else |
| OutputTarget.FormatIgnoresCase | skills/react-pdf/scripts/capture.ts:83 | extensions equal up to case give the same format |
| OutputTarget.FormatExamples | skills/react-pdf/scripts/capture.ts:83-93 | `.JPG` is JPEG, `.gif` and the empty extension fall back to PNG |
| OutputTarget.TemplateKeepsFormat | skills/react-pdf/scripts/capture.ts:77-93 | inserting the page number does not change the format of `dir/stem.ext` |
| OutputTarget.DotFileSinglePage | skills/react-pdf/scripts/capture.ts:77-93 | a pattern such as `.jpg` (a dot and a dot-free name) is written as PNG for one page, since `extname` finds no extension in it |
| OutputTarget.DotFileSeveralPages | skills/react-pdf/scripts/capture.ts:77-93 | with several pages the same pattern becomes `-N.jpg` and takes the format of its extension |
| NodePath.StripTrailingSlashes | skills/react-pdf/scripts/capture.ts:21 | removes exactly the trailing slashes |
| NodePath.AfterLast | skills/react-pdf/scripts/capture.ts:21 | the part after the last separator has none |
| NodePath.AfterLastIsSuffix | skills/react-pdf/scripts/capture.ts:21 | that part is a suffix of the string |
| NodePath.AfterLastAppend | skills/react-pdf/scripts/capture.ts:21 | appending separator-free text extends it |
| NodePath.AfterLastSeparator | skills/react-pdf/scripts/capture.ts:21 | after `x c y` with `y` free of `c`, it is `y` |
| NodePath.Basename | skills/react-pdf/scripts/capture.ts:21 | the base name contains no slash |
| NodePath.BasenameAppend | skills/react-pdf/scripts/capture.ts:21 | the base name of `x + y` with `y` a non-empty slash-free tail is the last segment of `x` followed by `y` |
| NodePath.ExtName | skills/react-pdf/scripts/capture.ts:83 | the extension is empty or a dot followed by characters that are neither dots nor slashes |
| NodePath.ExtNameOfDottedPath | skills/react-pdf/scripts/capture.ts:83 | the extension of `x.e` is `.e`, unless the final segment starts with that dot, when it is empty |
| PageList.Split | skills/react-pdf/scripts/capture.ts:131 | splitting gives at least one part, and no part contains a comma |
| PageList.JoinSplit | skills/react-pdf/scripts/capture.ts:131 | joining the parts with commas gives back the argument |
| PageList.JoinAfterEmpty | skills/react-pdf/scripts/capture.ts:131 | a leading empty part joins as a leading comma |
| PageList.JoinGlued | skills/react-pdf/scripts/capture.ts:131 | a character glued to the first part comes first in the join |
| PageList.SplitJoin | skills/react-pdf/scripts/capture.ts:131 | splitting the comma-join of comma-free parts gives back those parts |
| PageList.SplitCommaFree | skills/react-pdf/scripts/capture.ts:131 | comma-free text in front extends the first part |
| PageList.TrimStart | skills/react-pdf/scripts/capture.ts:131 | trimming never lengthens |
| PageList.TrimStartRemovesLeadingSpace | skills/react-pdf/scripts/capture.ts:131 | the result is the input without its leading ECMAScript white space and line terminators, and starts with a non-space |
| PageList.TrimEnd | skills/react-pdf/scripts/capture.ts:131 | trimming never lengthens |
| PageList.TrimEndRemovesTrailingSpace | skills/react-pdf/scripts/capture.ts:131 | the result is the input without its trailing white space, and ends with a non-space |
| PageList.DigitPrefix | skills/react-pdf/scripts/capture.ts:131 | the leading digits are digits |
| PageList.DigitPrefixIsLongest | skills/react-pdf/scripts/capture.ts:131 | they are a prefix and the character after them is not a digit |
| PageList.DigitPrefixOf | skills/react-pdf/scripts/capture.ts:131 | the leading digits of `digits + rest` (rest not starting with a digit) are `digits` |
| PageList.ParseIntOfNumeral | skills/react-pdf/scripts/capture.ts:131 | `parseInt` of an optional sign, digits and any non-digit tail is the signed value of the digits |
| PageList.ParseIntOfUnsignedNumeral | skills/react-pdf/scripts/capture.ts:131 | the same without a sign |
| PageList.ParseIntOfNegativeNumeral | skills/react-pdf/scripts/capture.ts:131 | the same with `-`: the negated value |
| PageList.ParseIntOfPositiveNumeral | skills/react-pdf/scripts/capture.ts:131 | the same with `+`: the value |
| PageList.ParseIntNaN | skills/react-pdf/scripts/capture.ts:131-132 | `parseInt` is NaN exactly when, after leading white space and an optional sign, no digit follows |
| PageList.ParseSegments | skills/react-pdf/scripts/capture.ts:131-135 | the list is accepted if and only if every segment parses; then it has one number per segment, in order, each the parse of its trimmed segment |
| PageList.ParseSegmentOfNumeral | skills/react-pdf/scripts/capture.ts:131 | a decimal numeral parses back to its number |
| PageList.ParseFormattedList | skills/react-pdf/scripts/capture.ts:131-135 | a comma-joined list of numerals parses back to the list |
| PageList.ParseSegmentIgnoresJunk | skills/react-pdf/scripts/capture.ts:131 | `" 3abc"` gives 3: leading space is trimmed and the tail after the digits ignored |
| PageList.ParseSegmentKeepsSign | skills/react-pdf/scripts/capture.ts:131 | `"-2"` gives -2, which the loop later reports as a missing page |
| PageList.EmptySegmentRejectsList | skills/react-pdf/scripts/capture.ts:131-135 | `"1,,2"` and the empty argument are rejected |
| Decimal.DigitValue | skills/react-pdf/scripts/capture.ts:131 | a digit's value is below ten |
| Decimal.DigitChar | skills/react-pdf/scripts/capture.ts:79 | the digit for a value below ten is a digit of that value |
| Decimal.DecimalString | skills/react-pdf/scripts/capture.ts:79 | `${pageNum}` is a non-empty digit string, with a leading zero only for zero |
| Decimal.DecimalRoundTrip | skills/react-pdf/scripts/capture.ts:79 | reading the numeral back gives the number |
| Decimal.DecimalInjective | skills/react-pdf/scripts/capture.ts:79 | different page numbers have different numerals |
| WarnFilter.Includes | skills/react-pdf/scripts/capture.ts:10 | `includes` holds exactly when the text occurs at some position |
| WarnFilter.SuppressedIff | skills/react-pdf/scripts/capture.ts:9-12 | a warning is suppressed if and only if its first argument contains "UnknownErrorException" or "standardFontDataUrl" |
| WarnFilter.SuppressedInContext | skills/react-pdf/scripts/capture.ts:10 | surrounding a suppressed message with more text keeps it suppressed |
| WarnFilter.OnlyFirstArgumentCounts | skills/react-pdf/scripts/capture.ts:8-14 | only the first argument decides; a call with no arguments (`String(undefined)`) is forwarded, as is one whose second argument is the marker |
| Capture.PageEvents | skills/react-pdf/scripts/capture.ts:59-98 | definition: for one requested number, the missing-page error, or render, write to the templated path in the format chosen from it, report |
| Capture.LoopEvents | skills/react-pdf/scripts/capture.ts:58-99 | definition: the events of the loop, one requested number after the other |
| Capture.Missing | skills/react-pdf/scripts/capture.ts:59-63 | definition: the numbers named by the missing-page errors of a trace, in order |
| OutputTarget.InsertBeforeExtension | skills/react-pdf/scripts/capture.ts:79 | definition: `replace(/(\.[^.]+)$/, tag + "$1")`, the tag inserted before the one regex match, or the string unchanged when there is none |
| OutputTarget.OutputPathFor | skills/react-pdf/scripts/capture.ts:78-80 | definition: the pattern with `-N` inserted when more than one page is requested, the pattern itself otherwise |
| OutputTarget.FormatFor | skills/react-pdf/scripts/capture.ts:83-93 | definition: the format for the lower-cased `extname` of the output path |
| PageList.ParsePageList | skills/react-pdf/scripts/capture.ts:131-135 | definition: `split(",")`, each segment trimmed and parsed, `None` when some segment is NaN |
| PageList.ParseSegment | skills/react-pdf/scripts/capture.ts:131 | definition: `parseInt(p.trim(), 10)` |
| PageList.Trim | skills/react-pdf/scripts/capture.ts:131 | definition: `trim`, leading then trailing white space removed |
| PageList.ParseInt | skills/react-pdf/scripts/capture.ts:131 | definition: `parseInt(s, 10)`, leading white space skipped, then an optional sign and the leading digits |
| PageList.ReadSigned | skills/react-pdf/scripts/capture.ts:131 | definition: an optional `+` or `-`, then the leading digits; `-` negates |
| PageList.ReadDigits | skills/react-pdf/scripts/capture.ts:131 | definition: the value of the leading digits, `None` (NaN) when there are none |
| WarnFilter.FirstArgumentText | skills/react-pdf/scripts/capture.ts:9 | definition: `String(args[0])`, `"undefined"` for a call without arguments |
| WarnFilter.Suppressed | skills/react-pdf/scripts/capture.ts:10-12 | definition: the text contains "UnknownErrorException" or "standardFontDataUrl" |
| WarnFilter.Forwarded | skills/react-pdf/scripts/capture.ts:8-14 | definition: a call is passed on to the original `console.warn` unless its first argument is suppressed |
| PdfInfo.Truthy | skills/react-pdf/scripts/capture.ts:28-34 | definition: `if (info.X)` for a string field: present and non-empty |
| PdfInfo.FieldLine | skills/react-pdf/scripts/capture.ts:28-34 | definition: the captioned line of one field when it is truthy, nothing otherwise |
| PdfInfo.FieldLines | skills/react-pdf/scripts/capture.ts:28-34 | definition: the lines of a list of fields, in list order |
| PdfInfo.MetadataLines | skills/react-pdf/scripts/capture.ts:26-35 | definition: the seven field lines when pdf.js reports an info dictionary, nothing otherwise |
| PdfInfo.DimensionLines | skills/react-pdf/scripts/capture.ts:39-45 | definition: one dimension line per page, 1 to `numPages` |
| PdfInfo.InfoEvents | skills/react-pdf/scripts/capture.ts:17-48 | definition: base name, page count, metadata lines, heading, dimension lines, then `destroy` |

## Left out

- pdf.js (`getDocument`, `getPage`, `getViewport`, `render`, `getMetadata`, `destroy`) and node-canvas (`createCanvas`, `toBuffer`) are foreign libraries. A document is its page count and its info dictionary. Rendering is the `Rendered` event, and encoding is the `Format` recorded with each write.
- Viewport widths and heights, and their `Math.round`, are floating point. The dimension and capture lines are recorded without them.
- `fs.existsSync`, `fs.readFileSync`, `fs.writeFileSync` and the console are I/O. `Cli.Run` takes the answer of `existsSync` and the loaded document, or its absence, as parameters. The printed lines and the writes are events, not text.
- The replacement of the global `console.warn` is process-wide mutable state. Only the predicate that decides whether a warning is passed on is modelled.
- `async`/`await` is not modelled; the tool runs sequentially.
- `Cli.Run`: exceptions thrown after the document has loaded are not modelled. These are pdf.js failures in `getMetadata`, `getPage` or `render`; `canvas.toBuffer` failing to encode (capture.ts lines 87-92); and `fs.writeFileSync` failing on a missing or unwritable output directory (line 95). In the source, any of these ends the run through `main().catch` with exit code 1, after the earlier pages have been written. The model has no such failure: in the model only a load failure reaches the top-level `catch`, it is reported before anything else is printed, and `Cli.Run` promises exit code 0 for a capture once the document has loaded.
- `PageList.ParseIntNaN`: `parseInt` is modelled on unbounded integers. The loss of precision for digit strings beyond 2^53 is not modelled.
- `String()` of non-string values is not modelled: warning arguments and info-dictionary values are strings in the model. Info values that are not strings (numbers, objects) are left out.
- Characters are Unicode scalar values rather than UTF-16 code units. `OutputTarget.Lower` maps only A-Z. No other character lower-cases to a letter of `png`, `jpg` or `jpeg`, so the format choice is unaffected.
- `NodePath` implements the POSIX `path` module only. Windows separators are not modelled.
- `simple-doc.tsx` and `assets/example-template.tsx` are declarative layout (row striping, money formatting in floating point) and are not part of this model.
